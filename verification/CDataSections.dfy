/** Google Test's XML output of arbitrary text as CDATA sections (section 2.7 of
    XML 1.0), split where the text contains the end mark. */
module CDataSections {
  const CDATA_OPEN := "<![CDATA["
  const CDATA_CLOSE := "]]>"
  const ESCAPED_CLOSE := "]]&gt;"
  const CDATA_BREAK := "]]>]]&gt;<![CDATA["

  predicate StartsWith(s: string, prefix: string) {
    prefix <= s
  }

  predicate CloseAt(s: string, i: nat) {
    i + 3 <= |s| && s[i] == ']' && s[i + 1] == ']' && s[i + 2] == '>'
  }

  /** Where the first "]]>" is, or the end. */
  function StrStrClose(s: string): (k: nat)
    ensures k == |s| || CloseAt(s, k)
    ensures forall i: nat :: i < k ==> !CloseAt(s, i)
  {
    if |s| < 3 then |s|
    else if CloseAt(s, 0) then 0
    else
      var k := StrStrClose(s[1..]);
      assert forall i: nat :: i > 0 && CloseAt(s, i) ==> CloseAt(s[1..], i - 1);
      1 + k
  }

  /** The text in sections, every end mark escaped between two of them. */
  function Sections(data: string): string
    decreases |data|
  {
    var k := StrStrClose(data);
    if k < |data| then CDATA_OPEN + (data[..k] + (CDATA_CLOSE + (ESCAPED_CLOSE + Sections(data[k + 3..]))))
    else CDATA_OPEN + (data + CDATA_CLOSE)
  }

  lemma Regroup(a: string, b: string, c: string)
    ensures (a + b) + c == a + (b + c)
  {
  }

  method OutputXmlCDataSection(data: string) returns (stream: string)
    ensures stream == Sections(data)
  {
    var segment := data;
    stream := CDATA_OPEN;
    ghost var finished := "";
    while true
      invariant stream == finished + CDATA_OPEN
      invariant finished + Sections(segment) == Sections(data)
      decreases |segment|
    {
      var nextSegment := StrStrClose(segment);
      if nextSegment == |segment| {
        break;
      }
      finished := FinishSection(segment, finished);
      stream := stream + segment[..nextSegment];
      stream := stream + CDATA_BREAK;
      segment := segment[nextSegment + 3..];
    }
    LastSection(segment, finished);
    stream := stream + segment;
    stream := stream + CDATA_CLOSE;
  }

  /** What is finished once the first section of the rest is written with its escaped end mark. */
  lemma FinishSection(rest: string, finished: string) returns (finished': string)
    requires StrStrClose(rest) < |rest|
    ensures var k := StrStrClose(rest);
            && finished' + CDATA_OPEN == ((finished + CDATA_OPEN) + rest[..k]) + CDATA_BREAK
            && finished' + Sections(rest[k + 3..]) == finished + Sections(rest)
  {
    var cut := rest[..StrStrClose(rest)];
    finished' := finished + (CDATA_OPEN + (cut + (CDATA_CLOSE + ESCAPED_CLOSE)));
    SectionsGrow(finished, cut, Sections(rest[StrStrClose(rest) + 3..]));
  }

  lemma LastSection(rest: string, finished: string)
    requires StrStrClose(rest) == |rest|
    ensures finished + Sections(rest) == ((finished + CDATA_OPEN) + rest) + CDATA_CLOSE
  {
    Regroup(finished, CDATA_OPEN, rest + CDATA_CLOSE);
    Regroup(finished + CDATA_OPEN, rest, CDATA_CLOSE);
  }

  lemma SectionsGrow(finished: string, cut: string, rest: string)
    ensures finished + (CDATA_OPEN + (cut + (CDATA_CLOSE + (ESCAPED_CLOSE + rest))))
            == (finished + (CDATA_OPEN + (cut + (CDATA_CLOSE + ESCAPED_CLOSE)))) + rest
    ensures ((finished + CDATA_OPEN) + cut) + CDATA_BREAK
            == (finished + (CDATA_OPEN + (cut + (CDATA_CLOSE + ESCAPED_CLOSE)))) + CDATA_OPEN
  {
    var end := CDATA_CLOSE + ESCAPED_CLOSE;
    Regroup(CDATA_CLOSE, ESCAPED_CLOSE, rest);
    Regroup(cut, end, rest);
    Regroup(CDATA_OPEN, cut + end, rest);
    Regroup(finished, CDATA_OPEN + (cut + end), rest);
    assert CDATA_BREAK == end + CDATA_OPEN;
    Regroup(finished, CDATA_OPEN, cut);
    Regroup(finished, CDATA_OPEN + cut, end + CDATA_OPEN);
    Regroup(CDATA_OPEN, cut, end + CDATA_OPEN);
    Regroup(cut, end, CDATA_OPEN);
    Regroup(CDATA_OPEN, cut + end, CDATA_OPEN);
    Regroup(finished, CDATA_OPEN + (cut + end), CDATA_OPEN);
  }

  // ----- Reading it back -----

  datatype Reading = Text(text: string) | Malformed

  function Before(text: string, r: Reading): Reading {
    match r
    case Text(t) => Text(text + t)
    case Malformed => Malformed
  }

  /** The character data of element content without markup other than CDATA
      sections and &gt;: a section ends at its first "]]>", and outside one
      neither '<', '&' nor "]]>" may stand for itself (sections 2.4 and 2.7). */
  function ReadContent(s: string): Reading
    decreases |s|
  {
    if s == "" then Text("")
    else if StartsWith(s, CDATA_OPEN) then
      var section := s[|CDATA_OPEN|..];
      var k := StrStrClose(section);
      if k < |section| then Before(section[..k], ReadContent(section[k + 3..])) else Malformed
    else if StartsWith(s, "&gt;") then Before(">", ReadContent(s[4..]))
    else if s[0] == '<' || s[0] == '&' || StartsWith(s, CDATA_CLOSE) then Malformed
    else Before([s[0]], ReadContent(s[1..]))
  }

  /** Text without an end mark is followed by the first one, even when it ends in brackets. */
  lemma FirstCloseIsOurs(segment: string, rest: string)
    requires StrStrClose(segment) == |segment|
    ensures StrStrClose(segment + (CDATA_CLOSE + rest)) == |segment|
  {
    var s := segment + (CDATA_CLOSE + rest);
    var k := StrStrClose(s);
    assert CloseAt(s, |segment|);
    assert s[|segment|] == ']' && s[|segment| + 1] == ']';
    assert k < |segment| ==> k + 3 <= |segment|;
    assert k < |segment| ==> CloseAt(segment, k);
  }

  lemma CutIsClean(data: string)
    ensures StrStrClose(data[..StrStrClose(data)]) == StrStrClose(data)
  {
    var cut := data[..StrStrClose(data)];
    var j := StrStrClose(cut);
    if j < |cut| && CloseAt(data, j) {
      assert false;
    }
  }

  lemma SectionReads(segment: string, rest: string)
    requires StrStrClose(segment) == |segment|
    ensures ReadContent(CDATA_OPEN + (segment + (CDATA_CLOSE + rest))) == Before(segment, ReadContent(rest))
  {
    var section := segment + (CDATA_CLOSE + rest);
    var s := CDATA_OPEN + section;
    FirstCloseIsOurs(segment, rest);
    assert s[|CDATA_OPEN|..] == section;
    assert section[..|segment|] == segment;
    assert section[|segment| + 3..] == rest;
  }

  lemma BracketReads(s: string)
    requires |s| >= 3 && s[0] == ']' && s[2] != '>'
    ensures ReadContent(s) == Before("]", ReadContent(s[1..]))
  {
    assert CDATA_OPEN[0] == '<' && "&gt;"[0] == '&' && CDATA_CLOSE[2] == '>';
    assert !StartsWith(s, CDATA_OPEN) && !StartsWith(s, "&gt;") && !StartsWith(s, CDATA_CLOSE);
  }

  lemma EscapedCloseReads(rest: string)
    ensures ReadContent(ESCAPED_CLOSE + rest) == Before(CDATA_CLOSE, ReadContent(rest))
  {
    var entity := "&gt;" + rest;
    assert ESCAPED_CLOSE + rest == "]" + ("]" + entity);
    BracketReads("]" + ("]" + entity));
    BracketReads("]" + entity);
    assert ("]" + ("]" + entity))[1..] == "]" + entity && ("]" + entity)[1..] == entity;
    assert entity[4..] == rest;
    match ReadContent(rest) {
      case Text(t) => assert "]" + ("]" + (">" + t)) == CDATA_CLOSE + t;
      case Malformed =>
    }
  }

  lemma EscapedSectionReads(segment: string, rest: string)
    requires StrStrClose(segment) == |segment| && ReadContent(Sections(rest)) == Text(rest)
    ensures ReadContent(CDATA_OPEN + (segment + (CDATA_CLOSE + (ESCAPED_CLOSE + Sections(rest)))))
            == Text(segment + (CDATA_CLOSE + rest))
  {
    EscapedCloseReads(Sections(rest));
    SectionReads(segment, ESCAPED_CLOSE + Sections(rest));
  }

  lemma LastSectionReads(data: string)
    requires StrStrClose(data) == |data|
    ensures ReadContent(Sections(data)) == Text(data)
  {
    SectionReads(data, "");
    assert CDATA_CLOSE + "" == CDATA_CLOSE && data + "" == data;
  }

  /** Reading the output back yields the original text, whatever it contains. */
  lemma {:induction false} CDataRoundTrip(data: string)
    ensures ReadContent(Sections(data)) == Text(data)
    decreases |data|
  {
    var k := StrStrClose(data);
    if k < |data| {
      CutIsClean(data);
      CDataRoundTrip(data[k + 3..]);
      EscapedSectionReads(data[..k], data[k + 3..]);
      SplitAtClose(data);
    } else {
      LastSectionReads(data);
    }
  }

  lemma SplitAround(s: string, k: nat, end: nat)
    requires k <= end <= |s|
    ensures s == s[..k] + (s[k..end] + s[end..])
  {
  }

  lemma CloseIsClose(s: string, k: nat)
    requires CloseAt(s, k)
    ensures s[k..k + 3] == CDATA_CLOSE
  {
    var t := s[k..k + 3];
    assert t[0] == ']' && t[1] == ']' && t[2] == '>';
  }

  lemma SplitAtClose(data: string)
    requires StrStrClose(data) < |data|
    ensures var k := StrStrClose(data); data == data[..k] + (CDATA_CLOSE + data[k + 3..])
  {
    var k := StrStrClose(data);
    CloseIsClose(data, k);
    SplitAround(data, k, k + 3);
  }
}
