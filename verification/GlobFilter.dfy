/** Google Test's name filters: ':'-separated wildcard patterns. */
module GlobFilter {
  import opened CStrings

  /** The first ':' or the end marks the end of the pattern. */
  predicate PatternMatchesString(pattern: string, str: string)
    requires NoNul(pattern) && NoNul(str)
    decreases |pattern| + |str|
  {
    var head := At(pattern, 0);
    if head == '\0' || head == ':' then At(str, 0) == '\0'
    else if head == '?' then At(str, 0) != '\0' && PatternMatchesString(pattern[1..], str[1..])
    else if head == '*' then
      (At(str, 0) != '\0' && PatternMatchesString(pattern, str[1..])) || PatternMatchesString(pattern[1..], str)
    else head == At(str, 0) && PatternMatchesString(pattern[1..], str[1..])
  }

  // ----- The language of a pattern -----

  /** The strings one pattern character stands for. */
  predicate StandsFor(c: char, part: string) {
    if c == '?' then |part| == 1 else if c == '*' then true else part == [c]
  }

  function Joined(parts: seq<string>): string {
    if parts == [] then "" else parts[0] + Joined(parts[1..])
  }

  /** One part of the string for every character of the pattern. */
  ghost predicate Spells(pattern: string, parts: seq<string>, str: string) {
    && |parts| == |pattern|
    && (forall i :: 0 <= i < |pattern| ==> StandsFor(pattern[i], parts[i]))
    && Joined(parts) == str
  }

  ghost predicate InWildcards(pattern: string, str: string) {
    exists parts :: Spells(pattern, parts, str)
  }

  /** Where the first ':' is, or the end. */
  function Colon(filter: string): (k: nat)
    ensures k <= |filter| && ':' !in filter[..k] && (k < |filter| ==> filter[k] == ':')
  {
    if filter == "" || filter[0] == ':' then 0 else 1 + Colon(filter[1..])
  }

  function Piece(filter: string): string {
    filter[..Colon(filter)]
  }

  lemma PieceOfTail(pattern: string)
    requires pattern != "" && pattern[0] != ':'
    ensures Piece(pattern) == [pattern[0]] + Piece(pattern[1..])
  {
  }

  lemma SpellsHead(pattern: string, parts: seq<string>, str: string, part: string, rest: string)
    requires pattern != "" && str == part + rest && StandsFor(pattern[0], part) && Spells(pattern[1..], parts, rest)
    ensures Spells(pattern, [part] + parts, str)
  {
    assert ([part] + parts)[1..] == parts;
    forall i | 0 < i < |pattern|
      ensures StandsFor(pattern[i], ([part] + parts)[i])
    {
      assert StandsFor(pattern[1..][i - 1], parts[i - 1]);
    }
  }

  lemma SpellsTail(pattern: string, parts: seq<string>, str: string)
    requires pattern != "" && Spells(pattern, parts, str)
    ensures str == parts[0] + Joined(parts[1..]) && Spells(pattern[1..], parts[1..], Joined(parts[1..]))
  {
  }

  lemma {:induction false} MatchSpells(pattern: string, str: string) returns (parts: seq<string>)
    requires NoNul(pattern) && NoNul(str) && PatternMatchesString(pattern, str)
    ensures Spells(Piece(pattern), parts, str)
    decreases |pattern| + |str|
  {
    if pattern == "" || pattern[0] == ':' {
      parts := [];
    } else {
      PieceOfTail(pattern);
      assert Piece(pattern)[1..] == Piece(pattern[1..]);
      if pattern[0] == '*' && str != "" && PatternMatchesString(pattern, str[1..]) {
        var longer := MatchSpells(pattern, str[1..]);
        SpellsTail(Piece(pattern), longer, str[1..]);
        var part := [str[0]] + longer[0];
        assert str == part + Joined(longer[1..]);
        SpellsHead(Piece(pattern), longer[1..], str, part, Joined(longer[1..]));
        parts := [part] + longer[1..];
      } else {
        var part := if pattern[0] == '*' then "" else str[..1];
        var rest := if pattern[0] == '*' then str else str[1..];
        parts := MatchSpells(pattern[1..], rest);
        assert str == part + rest;
        SpellsHead(Piece(pattern), parts, str, part, rest);
        parts := [part] + parts;
      }
    }
  }

  lemma {:induction false} SpellingMatches(pattern: string, parts: seq<string>, str: string)
    requires NoNul(pattern) && NoNul(str) && Spells(Piece(pattern), parts, str)
    ensures PatternMatchesString(pattern, str)
    decreases |pattern| + |str|
  {
    if pattern != "" && pattern[0] != ':' {
      PieceOfTail(pattern);
      assert Piece(pattern)[1..] == Piece(pattern[1..]);
      SpellsTail(Piece(pattern), parts, str);
      var part, rest := parts[0], Joined(parts[1..]);
      if pattern[0] == '*' && part != "" {
        assert str[1..] == part[1..] + rest;
        SpellsHead(Piece(pattern), parts[1..], str[1..], part[1..], rest);
        SpellingMatches(pattern, [part[1..]] + parts[1..], str[1..]);
      } else {
        assert rest == if pattern[0] == '*' then str else str[1..];
        SpellingMatches(pattern[1..], parts[1..], rest);
      }
    }
  }

  /** The recursive matcher decides the wildcard language of the pattern up to its first ':'. */
  lemma MatcherDecidesWildcards(pattern: string, str: string)
    requires NoNul(pattern) && NoNul(str)
    ensures PatternMatchesString(pattern, str) <==> InWildcards(Piece(pattern), str)
  {
    if PatternMatchesString(pattern, str) {
      var parts := MatchSpells(pattern, str);
    }
    if InWildcards(Piece(pattern), str) {
      var parts :| Spells(Piece(pattern), parts, str);
      SpellingMatches(pattern, parts, str);
    }
  }

  // ----- Filters -----

  /** The pieces between the colons. */
  function Split(filter: string): (pieces: seq<string>)
    ensures pieces != []
    decreases |filter|
  {
    var k := Colon(filter);
    [filter[..k]] + if k < |filter| then Split(filter[k + 1..]) else []
  }

  ghost predicate SomePieceAccepts(pieces: seq<string>, name: string) {
    exists i :: 0 <= i < |pieces| && InWildcards(pieces[i], name)
  }

  /** True exactly when some piece of the filter accepts the name. */
  method MatchesFilter(name: string, filter: string) returns (matches: bool)
    requires NoNul(name) && NoNul(filter)
    ensures matches <==> SomePieceAccepts(Split(filter), name)
  {
    var curPattern := filter;
    while true
      invariant NoNul(curPattern)
      invariant SomePieceAccepts(Split(filter), name) <==> SomePieceAccepts(Split(curPattern), name)
      decreases |curPattern|
    {
      MatcherDecidesWildcards(curPattern, name);
      SplitAccepts(curPattern, name);
      if PatternMatchesString(curPattern, name) {
        return true;
      }
      var k := Colon(curPattern);
      if k == |curPattern| {
        return false;
      }
      curPattern := curPattern[k + 1..];
    }
  }

  lemma HeadOrTailAccepts(pieces: seq<string>, name: string)
    requires pieces != []
    ensures SomePieceAccepts(pieces, name) <==> InWildcards(pieces[0], name) || SomePieceAccepts(pieces[1..], name)
  {
    if SomePieceAccepts(pieces, name) {
      var i :| 0 <= i < |pieces| && InWildcards(pieces[i], name);
      if i > 0 {
        assert InWildcards(pieces[1..][i - 1], name);
      }
    }
    if SomePieceAccepts(pieces[1..], name) {
      var i :| 0 <= i < |pieces[1..]| && InWildcards(pieces[1..][i], name);
      assert InWildcards(pieces[i + 1], name);
    }
  }

  lemma SplitHead(filter: string)
    ensures Split(filter)[0] == Piece(filter)
    ensures Split(filter)[1..] == if Colon(filter) < |filter| then Split(filter[Colon(filter) + 1..]) else []
  {
  }

  lemma SplitAccepts(filter: string, name: string)
    ensures SomePieceAccepts(Split(filter), name)
            <==> InWildcards(Piece(filter), name)
                 || (Colon(filter) < |filter| && SomePieceAccepts(Split(filter[Colon(filter) + 1..]), name))
  {
    SplitHead(filter);
    HeadOrTailAccepts(Split(filter), name);
  }

  // ----- What simple filters say -----

  ghost predicate SplitsOff(c: char, rest: string, str: string, k: nat) {
    k <= |str| && StandsFor(c, str[..k]) && InWildcards(rest, str[k..])
  }

  /** A wildcard string is one part for the first character and a wildcard string of the others. */
  lemma HeadWildcards(c: char, rest: string, str: string)
    ensures InWildcards([c] + rest, str) <==> exists k: nat :: SplitsOff(c, rest, str, k)
  {
    var pattern := [c] + rest;
    assert pattern[1..] == rest;
    if InWildcards(pattern, str) {
      var parts :| Spells(pattern, parts, str);
      SpellsTail(pattern, parts, str);
      assert str[..|parts[0]|] == parts[0] && str[|parts[0]|..] == Joined(parts[1..]);
      assert SplitsOff(c, rest, str, |parts[0]|);
    }
    if k: nat :| SplitsOff(c, rest, str, k) {
      var parts :| Spells(rest, parts, str[k..]);
      assert str == str[..k] + str[k..];
      SpellsHead(pattern, parts, str, str[..k], str[k..]);
    }
  }

  lemma NothingIsEmpty(str: string)
    ensures InWildcards("", str) <==> str == ""
  {
    if str == "" {
      assert Spells("", [], str);
    }
  }

  /** No wildcard in it. */
  predicate Literal(text: string) {
    '?' !in text && '*' !in text
  }

  lemma {:induction false} LiteralInFront(text: string, rest: string, str: string)
    requires Literal(text)
    ensures InWildcards(text + rest, str) <==> text <= str && InWildcards(rest, str[|text|..])
  {
    if text == "" {
      assert text + rest == rest && str[0..] == str;
    } else {
      var more := text[1..] + rest;
      assert text + rest == [text[0]] + more;
      HeadWildcards(text[0], more, str);
      assert forall k: nat :: SplitsOff(text[0], more, str, k) ==> k == 1 by {
        assert StandsFor(text[0], [text[0]]);
      }
      if str != "" {
        LiteralInFront(text[1..], rest, str[1..]);
        OneCharacterInFront(text, str);
        assert str[..1] == [str[0]];
        assert SplitsOff(text[0], more, str, 1) <==> text[0] == str[0] && InWildcards(more, str[1..]);
      }
    }
  }

  lemma OneCharacterInFront(text: string, str: string)
    requires text != "" && str != ""
    ensures text <= str <==> text[0] == str[0] && text[1..] <= str[1..]
    ensures text <= str ==> str[1..][|text| - 1..] == str[|text|..]
  {
    assert text == [text[0]] + text[1..] && str == [str[0]] + str[1..];
  }

  ghost predicate EndsIn(str: string, text: string) {
    exists k :: 0 <= k <= |str| && str[k..] == text
  }

  ghost predicate Contains(str: string, text: string) {
    exists k :: 0 <= k <= |str| && text <= str[k..]
  }

  lemma StarEndsIn(text: string, str: string)
    requires Literal(text)
    ensures InWildcards("*" + text, str) <==> EndsIn(str, text)
  {
    HeadWildcards('*', text, str);
    forall k: nat | k <= |str|
      ensures SplitsOff('*', text, str, k) <==> str[k..] == text
    {
      assert text + "" == text;
      LiteralInFront(text, "", str[k..]);
      if text <= str[k..] {
        NothingIsEmpty(str[k..][|text|..]);
      }
    }
  }

  lemma StarsContain(text: string, str: string)
    requires Literal(text)
    ensures InWildcards("*" + (text + "*"), str) <==> Contains(str, text)
  {
    HeadWildcards('*', text + "*", str);
    forall k: nat | k <= |str|
      ensures SplitsOff('*', text + "*", str, k) <==> text <= str[k..]
    {
      LiteralInFront(text, "*", str[k..]);
      if text <= str[k..] {
        StarIsAnything(str[k..][|text|..]);
      }
    }
  }

  lemma StarIsAnything(str: string)
    ensures InWildcards("*", str)
  {
    assert Joined([]) == "" && str + "" == str;
    assert Spells("*", [str], str) by {
      assert [str][1..] == [];
    }
  }

  /** A filter of two patterns. */
  lemma TwoPieces(first: string, second: string)
    requires ':' !in first && ':' !in second
    ensures Split(first + ":" + second) == [first, second]
  {
    var filter := first + ":" + second;
    var k := Colon(filter);
    assert filter[..|first|] == first && filter[|first|] == ':';
    assert forall i :: 0 <= i < |first| ==> filter[i] == first[i];
    assert k == |first|;
    assert filter[k + 1..] == second;
    assert Colon(second) == |second| && second[..|second|] == second;
  }

  /** A filter for names that end in one text or contain another. */
  lemma EndsOrContains(ending: string, inside: string, name: string)
    requires Literal(ending) && Literal(inside) && ':' !in ending && ':' !in inside
    ensures SomePieceAccepts(Split(("*" + ending) + ":" + ("*" + (inside + "*"))), name)
            <==> EndsIn(name, ending) || Contains(name, inside)
  {
    var first, second := "*" + ending, "*" + (inside + "*");
    TwoPieces(first, second);
    StarEndsIn(ending, name);
    StarsContain(inside, name);
    HeadOrTailAccepts([first, second], name);
    HeadOrTailAccepts([second], name);
    assert [first, second][1..] == [second] && [second][1..] == [];
  }
}
