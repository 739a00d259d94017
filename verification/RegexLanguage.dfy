/** The simple regular expressions Google Test accepts where no POSIX regex is
    available: their grammar, as syntax trees with a printed form, and their
    language, as sets of strings. */
module RegexLanguage {
  import opened CStrings

  /** True iff ch appears anywhere in str, the terminator excluded. */
  predicate IsInSet(ch: char, str: string) {
    ch != '\0' && ch in str
  }

  predicate IsAsciiDigit(ch: char) {
    '0' <= ch <= '9'
  }

  predicate IsAsciiPunct(ch: char) {
    IsInSet(ch, "^-!\"#$%&'()*+,./:;<=>?@[\\]_`{|}~")
  }

  predicate IsRepeat(ch: char) {
    IsInSet(ch, "?*+")
  }

  predicate IsAsciiWhiteSpace(ch: char) {
    IsInSet(ch, " \U{000C}\n\r\t\U{000B}")
  }

  predicate IsAsciiWordChar(ch: char) {
    'a' <= ch <= 'z' || 'A' <= ch <= 'Z' || '0' <= ch <= '9' || ch == '_'
  }

  predicate IsValidEscape(c: char) {
    IsAsciiPunct(c) || IsInSet(c, "dDfnrsStvwW")
  }

  predicate AtomMatchesChar(escaped: bool, patternChar: char, ch: char) {
    if escaped then
      match patternChar
      case 'd' => IsAsciiDigit(ch)
      case 'D' => !IsAsciiDigit(ch)
      case 'f' => ch == '\U{000C}'
      case 'n' => ch == '\n'
      case 'r' => ch == '\r'
      case 's' => IsAsciiWhiteSpace(ch)
      case 'S' => !IsAsciiWhiteSpace(ch)
      case 't' => ch == '\t'
      case 'v' => ch == '\U{000B}'
      case 'w' => IsAsciiWordChar(ch)
      case 'W' => !IsAsciiWordChar(ch)
      case _ => IsAsciiPunct(patternChar) && patternChar == ch
    else
      (patternChar == '.' && ch != '\n') || patternChar == ch
  }

  // ----- Grammar -----

  datatype Repeat = Once | ZeroOrOne | ZeroOrMore | OneOrMore

  /** An atom, \c or c, and how often it may repeat. */
  datatype Item = Item(escaped: bool, c: char, repeat: Repeat)

  /** The part of a pattern after a possible '^'. */
  datatype Tail = Tail(items: seq<Item>, dollar: bool)

  datatype Pattern = Pattern(caret: bool, tail: Tail)

  function RepeatText(r: Repeat): (t: string)
    ensures t == "" || (|t| == 1 && IsRepeat(t[0]))
  {
    match r
    case Once => ""
    case ZeroOrOne => "?"
    case ZeroOrMore => "*"
    case OneOrMore => "+"
  }

  function RepeatOf(ch: char): (r: Repeat)
    requires IsRepeat(ch)
    ensures RepeatText(r) == [ch]
  {
    if ch == '?' then ZeroOrOne else if ch == '*' then ZeroOrMore else OneOrMore
  }

  function AtomText(item: Item): (t: string)
    ensures |t| == if item.escaped then 2 else 1
  {
    if item.escaped then ['\\', item.c] else [item.c]
  }

  function TailText(t: Tail): string
    decreases |t.items|
  {
    if t.items == [] then (if t.dollar then "$" else "")
    else AtomText(t.items[0]) + RepeatText(t.items[0].repeat) + TailText(Tail(t.items[1..], t.dollar))
  }

  function Text(p: Pattern): string {
    (if p.caret then "^" else "") + TailText(p.tail)
  }

  /** Printable ASCII other than letters, digits and the space. */
  predicate Punctuation(c: char) {
    '!' <= c <= '/' || ':' <= c <= '@' || '[' <= c <= '`' || '{' <= c <= '~'
  }

  /** What may stand behind a backslash. */
  predicate Escapable(c: char) {
    Punctuation(c) || c in {'d', 'D', 'f', 'n', 'r', 's', 'S', 't', 'v', 'w', 'W'}
  }

  /** What may stand for itself, the wildcard included. */
  predicate IsPlain(c: char) {
    c !in {'\0', '\\', '^', '$', '(', ')', '[', ']', '{', '}', '|', '?', '*', '+'}
  }

  predicate ValidItem(item: Item) {
    if item.escaped then Escapable(item.c) else IsPlain(item.c)
  }

  predicate ValidTail(t: Tail) {
    forall item :: item in t.items ==> ValidItem(item)
  }

  predicate ValidPattern(p: Pattern) {
    ValidTail(p.tail)
  }

  // ----- Language -----

  predicate CountAllowed(r: Repeat, n: nat) {
    match r
    case Once => n == 1
    case ZeroOrOne => n <= 1
    case ZeroOrMore => true
    case OneOrMore => n >= 1
  }

  predicate Digit(ch: char) {
    '0' <= ch <= '9'
  }

  /** The space, and the five control characters from the tab to the carriage return. */
  predicate Space(ch: char) {
    ch == ' ' || '\t' <= ch <= '\r'
  }

  predicate Word(ch: char) {
    Digit(ch) || 'A' <= ch <= 'Z' || ch == '_' || 'a' <= ch <= 'z'
  }

  /** The characters an atom stands for: '.' for all but the end of a line, a
      class letter for its class or the complement of it, five letters for control
      characters, and anything else for itself. */
  predicate InClass(escaped: bool, c: char, ch: char) {
    if !escaped then (if c == '.' then ch != '\n' else ch == c)
    else if c in {'d', 'D'} then Digit(ch) == (c == 'd')
    else if c in {'s', 'S'} then Space(ch) == (c == 's')
    else if c in {'w', 'W'} then Word(ch) == (c == 'w')
    else if c == 't' then ch as int == 9
    else if c == 'n' then ch as int == 10
    else if c == 'v' then ch as int == 11
    else if c == 'f' then ch as int == 12
    else if c == 'r' then ch as int == 13
    else Punctuation(c) && ch == c
  }

  lemma PunctIsPunctuation(c: char)
    ensures IsAsciiPunct(c) <==> Punctuation(c)
  {
  }

  lemma ValidEscapeIsEscapable(c: char)
    ensures IsValidEscape(c) <==> Escapable(c)
  {
    PunctIsPunctuation(c);
  }

  /** The matcher takes a character for an atom exactly when it is in the atom's class. */
  lemma AtomMatchesItsClass(escaped: bool, c: char, ch: char)
    ensures AtomMatchesChar(escaped, c, ch) <==> InClass(escaped, c, ch)
  {
    PunctIsPunctuation(c);
  }

  /** The strings an item stands for. */
  predicate InItem(item: Item, u: string) {
    CountAllowed(item.repeat, |u|) && forall ch :: ch in u ==> InClass(item.escaped, item.c, ch)
  }

  /** The strings a sequence of items stands for: those that split into one string an item. */
  predicate InLanguage(items: seq<Item>, s: string)
    decreases |items|
  {
    if items == [] then s == ""
    else exists k :: 0 <= k <= |s| && InItem(items[0], s[..k]) && InLanguage(items[1..], s[k..])
  }

  /** Some prefix of s, all of it for '$', is in the language. */
  ghost predicate MatchesHead(t: Tail, s: string) {
    exists k :: 0 <= k <= |s| && InLanguage(t.items, s[..k]) && (t.dollar ==> k == |s|)
  }

  /** Some substring of s, respecting '^' and '$', is in the language. */
  ghost predicate MatchesAnywhere(p: Pattern, s: string) {
    exists i, j :: 0 <= i <= j <= |s| && InLanguage(p.tail.items, s[i..j])
                   && (p.caret ==> i == 0) && (p.tail.dollar ==> j == |s|)
  }

  /** k characters of s for the first item, then the rest of the pattern. */
  ghost predicate SplitsAt(item: Item, rest: Tail, s: string, k: nat) {
    k <= |s| && InItem(item, s[..k]) && MatchesHead(rest, s[k..])
  }

  lemma HeadSplits(t: Tail, s: string)
    requires t.items != []
    ensures MatchesHead(t, s) <==> exists k: nat :: SplitsAt(t.items[0], Tail(t.items[1..], t.dollar), s, k)
  {
    var rest := Tail(t.items[1..], t.dollar);
    if MatchesHead(t, s) {
      var n :| 0 <= n <= |s| && InLanguage(t.items, s[..n]) && (t.dollar ==> n == |s|);
      var k :| 0 <= k <= n && InItem(t.items[0], s[..n][..k]) && InLanguage(t.items[1..], s[..n][k..]);
      assert s[..n][..k] == s[..k];
      assert s[..n][k..] == s[k..][..n - k];
      assert SplitsAt(t.items[0], rest, s, k);
    }
    if k: nat :| SplitsAt(t.items[0], rest, s, k) {
      var m :| 0 <= m <= |s[k..]| && InLanguage(rest.items, s[k..][..m]) && (t.dollar ==> m == |s[k..]|);
      assert s[..k + m][..k] == s[..k];
      assert s[..k + m][k..] == s[k..][..m];
      assert InLanguage(t.items, s[..k + m]);
    }
  }

  lemma AnywhereFromHead(p: Pattern, s: string)
    ensures MatchesAnywhere(p, s) <==> exists i :: 0 <= i <= |s| && (p.caret ==> i == 0) && MatchesHead(p.tail, s[i..])
  {
    if MatchesAnywhere(p, s) {
      var i, j :| 0 <= i <= j <= |s| && InLanguage(p.tail.items, s[i..j])
                  && (p.caret ==> i == 0) && (p.tail.dollar ==> j == |s|);
      assert s[i..][..j - i] == s[i..j];
      assert MatchesHead(p.tail, s[i..]);
    }
    if i :| 0 <= i <= |s| && (p.caret ==> i == 0) && MatchesHead(p.tail, s[i..]) {
      var k :| 0 <= k <= |s[i..]| && InLanguage(p.tail.items, s[i..][..k]) && (p.tail.dollar ==> k == |s[i..]|);
      assert s[i..][..k] == s[i..i + k];
    }
  }

  // ----- Validation -----

  /** What the validating scan accepts from a position on: whether it is the
      first, and whether a repetition may come next. */
  predicate Scans(first: bool, prevRepeatable: bool, s: string)
    decreases |s|
  {
    if s == "" then true
    else if s[0] == '\\' then |s| >= 2 && IsValidEscape(s[1]) && Scans(false, true, s[2..])
    else
      && !(s[0] == '^' && !first)
      && !(s[0] == '$' && |s| > 1)
      && !IsInSet(s[0], "()[]{}|")
      && !(IsRepeat(s[0]) && !prevRepeatable)
      && Scans(false, !IsInSet(s[0], "^$?*+"), s[1..])
  }

  lemma TailUnfolds(t: Tail)
    requires t.items != []
    ensures TailText(t) == AtomText(t.items[0])
                           + (RepeatText(t.items[0].repeat) + TailText(Tail(t.items[1..], t.dollar)))
  {
  }

  /** The plain characters are those that are none of the special ones. */
  lemma PlainIsNotSpecial(c: char)
    ensures IsPlain(c) <==> c != '\0' && c != '\\' && !IsInSet(c, "()[]{}|") && !IsInSet(c, "^$?*+")
    ensures IsInSet(c, "^$?*+") <==> c == '^' || c == '$' || IsRepeat(c)
  {
  }

  /** The atom at the head of what the scan accepts. */
  lemma ScannedAtom(prevRepeatable: bool, s: string) returns (item: Item, n: nat)
    requires NoNul(s) && s != "" && Scans(false, prevRepeatable, s) && (s[0] == '\\' || !IsInSet(s[0], "^$?*+"))
    ensures ValidItem(item) && item.repeat == Once && 0 < n <= |s| && AtomText(item) == s[..n]
    ensures Scans(false, true, s[n..])
  {
    if s[0] == '\\' {
      ValidEscapeIsEscapable(s[1]);
      item, n := Item(true, s[1], Once), 2;
    } else {
      PlainIsNotSpecial(s[0]);
      item, n := Item(false, s[0], Once), 1;
    }
  }

  lemma AtomInFront(item: Item, rest: Tail) returns (t: Tail)
    requires ValidItem(item) && ValidTail(rest)
    ensures ValidTail(t) && TailText(t) == AtomText(item) + (RepeatText(item.repeat) + TailText(rest))
  {
    t := Tail([item] + rest.items, rest.dollar);
    assert Tail(t.items[1..], t.dollar) == rest;
    TailUnfolds(t);
  }

  /** What the scan accepts after the first character is a repetition, where one may come, and a tail. */
  lemma {:induction false} ScanParses(prevRepeatable: bool, s: string) returns (r: Repeat, t: Tail)
    requires NoNul(s) && Scans(false, prevRepeatable, s)
    ensures ValidTail(t) && RepeatText(r) + TailText(t) == s
    ensures !prevRepeatable ==> r == Once
    decreases |s|
  {
    r := Once;
    if s == "" {
      t := Tail([], false);
    } else if s[0] == '\\' || !IsInSet(s[0], "^$?*+") {
      var atom, n := ScannedAtom(prevRepeatable, s);
      var r', t' := ScanParses(true, s[n..]);
      t := AtomInFront(atom.(repeat := r'), t');
      assert s == s[..n] + s[n..];
    } else if s[0] == '$' {
      t := Tail([], true);
    } else {
      PlainIsNotSpecial(s[0]);
      var once, t' := ScanParses(false, s[1..]);
      r, t := RepeatOf(s[0]), t';
      assert s == [s[0]] + s[1..];
    }
  }

  /** What the scan accepts after an atom. */
  lemma ScansAtom(item: Item, first: bool, prevRepeatable: bool, after: string)
    requires ValidItem(item) && Scans(false, true, after)
    ensures Scans(first, prevRepeatable, AtomText(item) + after)
  {
    var s := AtomText(item) + after;
    assert s[|AtomText(item)|..] == after;
    if item.escaped {
      ValidEscapeIsEscapable(item.c);
      assert s[0] == '\\' && s[1] == item.c;
    } else {
      PlainIsNotSpecial(item.c);
    }
  }

  lemma ScansRepeat(r: Repeat, after: string)
    requires Scans(false, true, after) && Scans(false, false, after)
    ensures Scans(false, true, RepeatText(r) + after)
  {
    var s := RepeatText(r) + after;
    if r == Once {
      assert s == after;
    } else {
      assert s[1..] == after;
      assert "^$?*+"[2..] == "?*+";
    }
  }

  /** A printed tail passes the scan, also behind a repetition. */
  lemma {:induction false} TailScans(t: Tail, first: bool, prevRepeatable: bool)
    requires ValidTail(t)
    ensures Scans(first, prevRepeatable, TailText(t))
    decreases |t.items|
  {
    if t.items != [] {
      var item, rest := t.items[0], Tail(t.items[1..], t.dollar);
      assert item in t.items;
      TailScans(rest, false, true);
      TailScans(rest, false, false);
      ScansRepeat(item.repeat, TailText(rest));
      ScansAtom(item, first, prevRepeatable, RepeatText(item.repeat) + TailText(rest));
      TailUnfolds(t);
    } else if t.dollar {
      assert IsInSet('$', "^$?*+") by { assert "^$?*+"[1] == '$'; }
    }
  }

  /** The scan accepts exactly the printed forms of the grammar. */
  lemma ScanAcceptsGrammar(s: string)
    requires NoNul(s)
    ensures Scans(true, false, s) <==> exists p :: ValidPattern(p) && Text(p) == s
  {
    if Scans(true, false, s) {
      if s != "" && s[0] == '^' {
        var r, t := ScanParses(false, s[1..]);
        assert Text(Pattern(true, t)) == s;
      } else {
        var r, t := ScanParses(false, s);
        assert Text(Pattern(false, t)) == s;
      }
    }
    forall p | ValidPattern(p) && Text(p) == s
      ensures Scans(true, false, s)
    {
      TailScans(p.tail, true, false);
      TailScans(p.tail, false, false);
      if p.caret {
        assert s[1..] == TailText(p.tail);
        assert IsInSet('^', "^$?*+") by { assert "^$?*+"[0] == '^'; }
      } else {
        assert s == TailText(p.tail);
      }
    }
  }
}
