/** Bytes, 32-bit big-endian numbers, and the error codes that travel between the layers. */
module Bytes {
  newtype Byte = x: int | 0 <= x < 256
  type Bytes = seq<Byte>

  const TWO_TO_THE_32: nat := 0x1_0000_0000

  /** The errors a response handler can be given. */
  datatype ErrorCode =
    | NoError
    | OperationAborted
    | SocketError(value: nat)
    | NetworkReset
    | ResponseTimeout
    | UnparseableResponse
    | InappropriateResponseContent
    | MissingVectorClock

  /** ntohl of the first four bytes. */
  function Length32(b: Bytes): (n: nat)
    requires |b| >= 4
    ensures n < TWO_TO_THE_32
  {
    ((b[0] as nat * 256 + b[1] as nat) * 256 + b[2] as nat) * 256 + b[3] as nat
  }

  /** htonl. */
  function Encode32(n: nat): (b: Bytes)
    requires n < TWO_TO_THE_32
    ensures |b| == 4 && Length32(b) == n
  {
    var b3 := n % 256;
    var n2 := n / 256;
    var n1 := n2 / 256;
    [(n1 / 256) as Byte, (n1 % 256) as Byte, (n2 % 256) as Byte, b3 as Byte]
  }

  /** The order of byte strings of the same length. */
  predicate Before(a: Bytes, b: Bytes)
    requires |a| == |b|
  {
    a != [] && (a[0] < b[0] || (a[0] == b[0] && Before(a[1..], b[1..])))
  }

  /** Network order: encodings compare as their numbers do. */
  lemma EncodingsCompare(m: nat, n: nat)
    requires m < TWO_TO_THE_32 && n < TWO_TO_THE_32
    ensures m < n <==> Before(Encode32(m), Encode32(n))
  {
    LengthsCompare(Encode32(m), Encode32(n));
  }

  lemma LengthsCompare(a: Bytes, b: Bytes)
    requires |a| == |b| == 4
    ensures Length32(a) < Length32(b) <==> Before(a, b)
  {
    var a1, b1 := a[1..], b[1..];
    var a2, b2 := a1[1..], b1[1..];
    var a3, b3 := a2[1..], b2[1..];
    assert Before(a3, b3) <==> a3[0] < b3[0];
    assert Before(a2, b2) <==> a2[0] < b2[0] || (a2[0] == b2[0] && Before(a3, b3));
    assert Before(a1, b1) <==> a1[0] < b1[0] || (a1[0] == b1[0] && Before(a2, b2));
    assert a1[0] == a[1] && a2[0] == a[2] && a3[0] == a[3];
    assert b1[0] == b[1] && b2[0] == b[2] && b3[0] == b[3];
  }

  /** Four bytes are the encoding of the number they stand for. */
  lemma EncodingOfLength(b: Bytes)
    requires |b| >= 4
    ensures b[..4] == Encode32(Length32(b))
  {
    var e := Encode32(Length32(b));
    assert Length32(e) == Length32(b);
    assert b[0] == e[0] && b[1] == e[1] && b[2] == e[2] && b[3] == e[3];
  }

  function Flatten(parts: seq<Bytes>): Bytes {
    if parts == [] then [] else parts[0] + Flatten(parts[1..])
  }

  lemma {:induction false} FlattenAppend(parts: seq<Bytes>, last: Bytes)
    ensures Flatten(parts + [last]) == Flatten(parts) + last
  {
    if parts == [] {
      assert parts + [last] == [last];
    } else {
      FlattenAppend(parts[1..], last);
      assert (parts + [last])[1..] == parts[1..] + [last];
    }
  }
}
