/** The matcher behind Google Test's simple regular expressions. */
module SimpleRegex {
  import opened CStrings
  import opened Options
  import opened RegexLanguage

  const SIZE_MAX: nat := 0xFFFF_FFFF_FFFF_FFFF

  /** Accepts exactly the texts of the grammar. */
  method ValidateRegex(regex: Option<string>) returns (isValid: bool)
    requires regex.Some? ==> NoNul(regex.value)
    ensures isValid <==> regex.Some? && exists p :: ValidPattern(p) && Text(p) == regex.value
  {
    if regex.None? {
      return false;
    }
    ScanAcceptsGrammar(regex.value);
    var rest := regex.value;
    isValid := true;
    var prevRepeatable := false;
    var i := 0;
    while rest != ""
      invariant NoNul(rest)
      invariant isValid && Scans(i == 0, prevRepeatable, rest) <==> Scans(true, false, regex.value)
      decreases |rest|
    {
      if rest[0] == '\\' {
        i := i + 1;
        if At(rest, 1) == '\0' {
          return false;
        }
        if !IsValidEscape(rest[1]) {
          isValid := false;
        }
        prevRepeatable := true;
        rest := rest[2..];
      } else {
        var ch := rest[0];
        if ch == '^' && i > 0 {
          isValid := false;
        } else if ch == '$' && At(rest, 1) != '\0' {
          isValid := false;
        } else if IsInSet(ch, "()[]{}|") {
          isValid := false;
        } else if IsRepeat(ch) && !prevRepeatable {
          isValid := false;
        }
        prevRepeatable := !IsInSet(ch, "^$?*+");
        rest := rest[1..];
      }
      i := i + 1;
    }
  }

  /** Whether enough repetitions of the atom at the head of str are followed by
      a match of the rest. Tries the shortest repetition first. */
  method MatchRepetitionAndRegexAtHead(escaped: bool, c: char, repeat: char, regex: string, str: string,
                                       ghost rest: Tail) returns (matched: bool)
    requires IsRepeat(repeat) && ValidTail(rest) && regex == TailText(rest)
    requires NoNul(str) && |str| < SIZE_MAX
    ensures matched <==> exists k: nat :: SplitsAt(Item(escaped, c, RepeatOf(repeat)), rest, str, k)
    decreases |regex|, 1
  {
    ghost var item := Item(escaped, c, RepeatOf(repeat));
    var minCount := if repeat == '+' then 1 else 0;
    var maxCount := if repeat == '?' then 1 else SIZE_MAX - 1;
    var i := 0;
    while i <= maxCount
      invariant i <= |str|
      invariant forall ch :: ch in str[..i] ==> InClass(escaped, c, ch)
      invariant forall k: nat :: k < i ==> !SplitsAt(item, rest, str, k)
      decreases maxCount - i
    {
      if i >= minCount {
        var tailMatches := MatchRegexAtHead(regex, str[i..], rest);
        if tailMatches {
          assert SplitsAt(item, rest, str, i);
          return true;
        }
      }
      assert !SplitsAt(item, rest, str, i);
      AtomMatchesItsClass(escaped, c, At(str, i));
      if At(str, i) == '\0' || !AtomMatchesChar(escaped, c, str[i]) {
        forall k: nat | i < k <= |str|
          ensures !InItem(item, str[..k])
        {
          assert str[i] in str[..k];
        }
        return false;
      }
      assert str[..i + 1] == str[..i] + [str[i]];
      i := i + 1;
    }
    return false;
  }

  /** Whether a prefix of str matches a regex without '^'. */
  method MatchRegexAtHead(regex: string, str: string, ghost t: Tail) returns (matched: bool)
    requires ValidTail(t) && regex == TailText(t)
    requires NoNul(str) && |str| < SIZE_MAX
    ensures matched <==> MatchesHead(t, str)
    decreases |regex|, 0
  {
    if regex == "" {
      assert InLanguage(t.items, str[..0]);
      return true;
    }
    if regex[0] == '$' {
      HeadOfTail(t);
      assert str[..|str|] == str;
      return str == "";
    }
    HeadOfTail(t);
    ghost var item, rest := t.items[0], Tail(t.items[1..], t.dollar);
    HeadSplits(t, str);
    var escaped := regex[0] == '\\';
    var atom := if escaped then regex[1..] else regex;
    if IsRepeat(At(atom, 1)) {
      matched := MatchRepetitionAndRegexAtHead(escaped, atom[0], atom[1], atom[2..], str, rest);
    } else {
      AtomMatchesItsClass(escaped, atom[0], At(str, 0));
      if str == "" || !AtomMatchesChar(escaped, atom[0], str[0]) {
        return false;
      }
      matched := MatchRegexAtHead(atom[1..], str[1..], rest);
      assert str[..1] == [str[0]];
      assert matched ==> SplitsAt(item, rest, str, 1);
    }
  }

  /** How a tail's text shows what the tail begins with. */
  lemma HeadOfTail(t: Tail)
    requires ValidTail(t) && TailText(t) != ""
    ensures TailText(t)[0] == '$' <==> t.items == []
    ensures t.items != [] ==>
              var item, rest := t.items[0], Tail(t.items[1..], t.dollar);
              var atom := if item.escaped then TailText(t)[1..] else TailText(t);
              && ValidTail(rest)
              && item.escaped == (TailText(t)[0] == '\\')
              && atom != "" && atom[0] == item.c
              && if IsRepeat(At(atom, 1)) then
                   item.repeat == RepeatOf(atom[1]) && atom[2..] == TailText(rest)
                 else
                   item.repeat == Once && atom[1..] == TailText(rest)
  {
    if t.items != [] {
      var item, rest := t.items[0], Tail(t.items[1..], t.dollar);
      assert item in t.items;
      assert ValidTail(rest);
      TailUnfolds(t);
      AtomShows(item, RepeatText(item.repeat) + TailText(rest));
      RepeatShows(item, rest);
    }
  }

  /** An atom's first character shows whether it is escaped; its last is what it matches. */
  lemma AtomShows(item: Item, after: string)
    requires ValidItem(item)
    ensures var text := AtomText(item) + after;
            && text[0] != '$' && (text[0] == '\\' <==> item.escaped)
            && (if item.escaped then text[1..] else text) == [item.c] + after
  {
    if !item.escaped {
      PlainIsNotSpecial(item.c);
    }
  }

  /** What follows an atom's character shows whether it repeats. */
  lemma RepeatShows(item: Item, rest: Tail)
    requires ValidTail(rest)
    ensures var atom := [item.c] + (RepeatText(item.repeat) + TailText(rest));
            if IsRepeat(At(atom, 1)) then item.repeat == RepeatOf(atom[1]) && atom[2..] == TailText(rest)
            else item.repeat == Once && atom[1..] == TailText(rest)
  {
    TailStartsPlainly(rest);
    var after := RepeatText(item.repeat) + TailText(rest);
    assert ([item.c] + after)[1..] == after;
    if item.repeat == Once {
      assert after == TailText(rest);
    } else {
      assert ([item.c] + after)[2..] == after[1..] == TailText(rest);
    }
  }

  /** No tail starts with a repetition or with '^'. */
  lemma TailStartsPlainly(t: Tail)
    requires ValidTail(t)
    ensures TailText(t) != "" ==> !IsRepeat(TailText(t)[0]) && TailText(t)[0] != '^'
  {
    if t.items != [] {
      assert t.items[0] in t.items;
      TailUnfolds(t);
      if !t.items[0].escaped {
        PlainIsNotSpecial(t.items[0].c);
      }
    }
  }

  /** True exactly when some substring of str, respecting '^' and '$', is in the language. */
  method MatchRegexAnywhere(regex: Option<string>, str: Option<string>) returns (matched: bool)
    requires regex.Some? ==> exists p :: ValidPattern(p) && Text(p) == regex.value
    requires str.Some? ==> NoNul(str.value) && |str.value| < SIZE_MAX
    ensures regex.None? || str.None? ==> !matched
    ensures regex.Some? && str.Some? ==>
              forall p :: ValidPattern(p) && Text(p) == regex.value ==> (matched <==> MatchesAnywhere(p, str.value))
  {
    if regex.None? || str.None? {
      return false;
    }
    ghost var p :| ValidPattern(p) && Text(p) == regex.value;
    TextDeterminesPattern(regex.value);
    AnywhereFromHead(p, str.value);
    TailStartsPlainly(p.tail);
    if At(regex.value, 0) == '^' {
      matched := MatchRegexAtHead(regex.value[1..], str.value, p.tail);
      assert str.value[0..] == str.value;
      return;
    }
    assert regex.value == TailText(p.tail);
    var s := str.value;
    for i := 0 to |s| + 1
      invariant forall k :: 0 <= k < i ==> !MatchesHead(p.tail, s[k..])
    {
      matched := MatchRegexAtHead(regex.value, s[i..], p.tail);
      if matched {
        return true;
      }
    }
    return false;
  }

  lemma TextSplits(p: Pattern)
    requires ValidPattern(p)
    ensures p.caret <==> At(Text(p), 0) == '^'
    ensures TailText(p.tail) == if p.caret then Text(p)[1..] else Text(p)
  {
    TailStartsPlainly(p.tail);
  }

  /** A text has one reading. */
  lemma TextDeterminesPattern(text: string)
    ensures forall p, q :: ValidPattern(p) && ValidPattern(q) && Text(p) == text && Text(q) == text ==> p == q
  {
    forall p, q | ValidPattern(p) && ValidPattern(q) && Text(p) == text && Text(q) == text
      ensures p == q
    {
      TailStartsPlainly(p.tail);
      TailStartsPlainly(q.tail);
      TextSplits(p);
      TextSplits(q);
      TailTextInjective(p.tail, q.tail);
    }
  }

  lemma {:induction false} TailTextInjective(t: Tail, u: Tail)
    requires ValidTail(t) && ValidTail(u) && TailText(t) == TailText(u)
    ensures t == u
    decreases |t.items|
  {
    if TailText(t) != "" {
      HeadOfTail(t);
      HeadOfTail(u);
      if t.items != [] {
        TailTextInjective(Tail(t.items[1..], t.dollar), Tail(u.items[1..], u.dollar));
        assert t.items == [t.items[0]] + t.items[1..];
        assert u.items == [u.items[0]] + u.items[1..];
      }
    } else {
      if t.items != [] { TailUnfolds(t); }
      if u.items != [] { TailUnfolds(u); }
    }
  }

  // ----- The RE class -----

  /** A pattern whose last character is '$' without being the anchor. */
  predicate EndsInEscapedDollar(p: Pattern) {
    && !p.tail.dollar
    && p.tail.items != []
    && p.tail.items[|p.tail.items| - 1] == Item(true, '$', Once)
  }

  /** The pattern a full match is tried with: anchored in front, and behind too
      unless the text already ends in '$', escaped or not. */
  function FullPattern(p: Pattern): Pattern {
    Pattern(true, Tail(p.tail.items, !EndsInEscapedDollar(p)))
  }

  lemma {:induction false} LastCharOfTail(t: Tail)
    requires ValidTail(t)
    ensures TailText(t) != "" && TailText(t)[|TailText(t)| - 1] == '$'
            <==> t.dollar || EndsInEscapedDollar(Pattern(true, t))
    decreases |t.items|
  {
    if t.items != [] {
      var item, rest := t.items[0], Tail(t.items[1..], t.dollar);
      assert item in t.items;
      TailUnfolds(t);
      LastCharOfTail(rest);
      if TailText(rest) == "" {
        if rest.items != [] { TailUnfolds(rest); }
        if item.repeat == Once && !item.escaped {
          PlainIsNotSpecial(item.c);
        }
      } else {
        var n := |TailText(t)|;
        assert TailText(t)[n - 1] == TailText(rest)[|TailText(rest)| - 1];
        if rest.items == [] {
          assert t.dollar;
        } else {
          assert t.items[|t.items| - 1] == rest.items[|rest.items| - 1];
        }
      }
    }
  }

  lemma {:induction false} AppendDollar(t: Tail)
    requires !t.dollar
    ensures TailText(t) + "$" == TailText(Tail(t.items, true))
    decreases |t.items|
  {
    if t.items != [] {
      AppendDollar(Tail(t.items[1..], t.dollar));
    }
  }

  class RE {
    var pattern: Option<string>
    var fullPattern: Option<string>
    var isValid: bool

    ghost predicate Valid()
      reads this
    {
      isValid ==>
        && pattern.Some? && fullPattern.Some?
        && exists p :: ValidPattern(p) && Text(p) == pattern.value && Text(FullPattern(p)) == fullPattern.value
    }

    constructor Init(regex: Option<string>)
      requires regex.Some? ==> NoNul(regex.value)
      ensures Valid() && pattern == regex
      ensures isValid <==> regex.Some? && exists p :: ValidPattern(p) && Text(p) == regex.value
    {
      pattern, fullPattern := regex, None;
      new;
      isValid := ValidateRegex(regex);
      if !isValid {
        return;
      }
      ghost var p :| ValidPattern(p) && Text(p) == regex.value;
      FullPatternText(p);
      var full := WriteFullPattern(regex.value);
      fullPattern := Some(full);
    }

    /** The text, copied into a buffer between the anchors it lacks. */
    static method WriteFullPattern(text: string) returns (full: string)
      ensures full == (if At(text, 0) != '^' then "^" else "") + text
                      + (if text == "" || text[|text| - 1] != '$' then "$" else "")
    {
      var buffer := new char[|text| + 3];
      var at := 0;
      if At(text, 0) != '^' {
        buffer[0] := '^';
        at := 1;
      }
      for i := 0 to |text|
        invariant at == 1 ==> buffer[0] == '^'
        invariant buffer[at..at + i] == text[..i]
      {
        buffer[at + i] := text[i];
      }
      var end := at + |text|;
      assert buffer[..end] == buffer[..at] + text;
      if |text| == 0 || text[|text| - 1] != '$' {
        buffer[end] := '$';
        end := end + 1;
      }
      buffer[end] := '\0';
      full := buffer[..end];
    }

    /** What Init writes is the text of the pattern for full matches. */
    static lemma FullPatternText(p: Pattern)
      requires ValidPattern(p)
      ensures var text := Text(p);
              Text(FullPattern(p)) == (if At(text, 0) != '^' then "^" else "") + text
                                      + (if text == "" || text[|text| - 1] != '$' then "$" else "")
      ensures ValidPattern(FullPattern(p))
    {
      TextSplits(p);
      FullTailText(p);
      LastCharOfText(p);
      var behind := if EndsInEscapedDollar(p) || p.tail.dollar then "" else "$";
      Anchor(TailText(p.tail), behind);
    }

    static lemma Anchor(tail: string, behind: string)
      ensures "^" + (tail + behind) == "" + ("^" + tail) + behind
      ensures "^" + (tail + behind) == "^" + ("" + tail) + behind
    {
    }

    static lemma FullTailText(p: Pattern)
      ensures TailText(FullPattern(p).tail)
              == TailText(p.tail) + if EndsInEscapedDollar(p) || p.tail.dollar then "" else "$"
    {
      if !p.tail.dollar && !EndsInEscapedDollar(p) {
        AppendDollar(p.tail);
      } else {
        assert FullPattern(p).tail == p.tail;
        assert TailText(p.tail) + "" == TailText(p.tail);
      }
    }

    static lemma LastCharOfText(p: Pattern)
      requires ValidPattern(p)
      ensures Text(p) == "" || Text(p)[|Text(p)| - 1] != '$' <==> !(EndsInEscapedDollar(p) || p.tail.dollar)
    {
      LastCharOfTail(p.tail);
    }

    static method FullMatch(str: string, re: RE) returns (matched: bool)
      requires re.Valid() && NoNul(str) && |str| < SIZE_MAX
      ensures !re.isValid ==> !matched
      ensures re.isValid ==>
                forall p :: ValidPattern(p) && Text(p) == re.pattern.value ==>
                              (matched <==> MatchesAnywhere(FullPattern(p), str))
    {
      if !re.isValid {
        return false;
      }
      TextDeterminesPattern(re.pattern.value);
      ghost var p :| ValidPattern(p) && Text(p) == re.pattern.value && Text(FullPattern(p)) == re.fullPattern.value;
      assert ValidPattern(FullPattern(p));
      matched := MatchRegexAnywhere(re.fullPattern, Some(str));
    }

    static method PartialMatch(str: string, re: RE) returns (matched: bool)
      requires re.Valid() && NoNul(str) && |str| < SIZE_MAX
      ensures !re.isValid ==> !matched
      ensures re.isValid ==>
                forall p :: ValidPattern(p) && Text(p) == re.pattern.value ==> (matched <==> MatchesAnywhere(p, str))
    {
      if !re.isValid {
        return false;
      }
      matched := MatchRegexAnywhere(re.pattern, Some(str));
    }
  }

  // ----- When a full match is a match of the whole string -----

  /** A character the atom matches. */
  function Sample(escaped: bool, c: char): char {
    if escaped then
      match c
      case 'd' => '0'
      case 'D' => 'a'
      case 'f' => '\U{000C}'
      case 'n' => '\n'
      case 'r' => '\r'
      case 's' => ' '
      case 'S' => 'a'
      case 't' => '\t'
      case 'v' => '\U{000B}'
      case 'w' => 'a'
      case 'W' => ' '
      case _ => c
    else c
  }

  lemma SampleMatches(item: Item)
    requires ValidItem(item)
    ensures Sample(item.escaped, item.c) != '\0' && InClass(item.escaped, item.c, Sample(item.escaped, item.c))
  {
  }

  /** No language of the grammar is empty. */
  lemma {:induction false} LanguageInhabited(items: seq<Item>) returns (s: string)
    requires forall item :: item in items ==> ValidItem(item)
    ensures NoNul(s) && InLanguage(items, s)
  {
    if items == [] {
      s := "";
    } else {
      var rest := LanguageInhabited(items[1..]);
      SampleMatches(items[0]);
      s := [Sample(items[0].escaped, items[0].c)] + rest;
      assert s[..1] == [s[0]] && s[1..] == rest;
      assert InItem(items[0], s[..1]);
    }
  }

  /** A string of a language whose last atom is one '$' ends in '$'. */
  lemma {:induction false} EndsInDollar(items: seq<Item>, s: string)
    requires items != [] && items[|items| - 1] == Item(true, '$', Once) && InLanguage(items, s)
    ensures s != "" && s[|s| - 1] == '$'
  {
    var k :| 0 <= k <= |s| && InItem(items[0], s[..k]) && InLanguage(items[1..], s[k..]);
    if |items| == 1 {
      assert s[k..] == "";
      assert s[0] in s[..k];
    } else {
      EndsInDollar(items[1..], s[k..]);
    }
  }

  /** FullMatch decides membership of the whole string, for every string, exactly
      when the pattern does not end in an escaped '$': such a pattern stays
      unanchored behind and also accepts longer strings. */
  lemma FullMatchIsWhole(p: Pattern)
    requires ValidPattern(p)
    ensures (forall s :: NoNul(s) ==> (MatchesAnywhere(FullPattern(p), s) <==> InLanguage(p.tail.items, s)))
            <==> !EndsInEscapedDollar(p)
  {
    if EndsInEscapedDollar(p) {
      var s := LanguageInhabited(p.tail.items);
      var longer := s + "x";
      assert longer[0..|s|] == s;
      assert MatchesAnywhere(FullPattern(p), longer);
      assert NoNul(longer);
      if InLanguage(p.tail.items, longer) {
        EndsInDollar(p.tail.items, longer);
      }
    } else {
      forall s
        ensures MatchesAnywhere(FullPattern(p), s) <==> InLanguage(p.tail.items, s)
      {
        assert s[0..|s|] == s;
      }
    }
  }
}
