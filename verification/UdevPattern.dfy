/**
  Pattern matching as udev applies it to the text between the quotes of a match term:
  alternatives separated by '|', each an fnmatch pattern with '*', '?' and '\'.
 */
module UdevPattern {
  import opened UdevEscape

  /** fnmatch(pattern, value, 0). A bracket expression is read literally: no pattern of a
      compiled rule and no category pattern contains '['. */
  predicate Fnmatch(pattern: string, value: string)
    decreases |pattern|, |value|
  {
    if pattern == "" then value == ""
    else if pattern[0] == '*' then
      Fnmatch(pattern[1..], value) || (value != "" && Fnmatch(pattern, value[1..]))
    else if pattern[0] == '?' then value != "" && Fnmatch(pattern[1..], value[1..])
    else if pattern[0] == '\\' then
      |pattern| > 1 && value != "" && value[0] == pattern[1] && Fnmatch(pattern[2..], value[1..])
    else value != "" && value[0] == pattern[0] && Fnmatch(pattern[1..], value[1..])
  }

  function IndexOf(text: string, c: char): (i: int)
    ensures -1 <= i < |text|
    ensures i == -1 <==> c !in text
    ensures i >= 0 ==> text[i] == c && c !in text[..i]
  {
    if text == "" then -1
    else if text[0] == c then 0
    else
      var rest := IndexOf(text[1..], c);
      assert text == [text[0]] + text[1..];
      if rest == -1 then -1 else
      assert text[..rest + 1] == [text[0]] + text[1..][..rest];
      rest + 1
  }

  predicate UdevMatches(pattern: string, value: string)
    decreases |pattern|
  {
    var bar := IndexOf(pattern, '|');
    if bar == -1 then Fnmatch(pattern, value)
    else Fnmatch(pattern[..bar], value) || UdevMatches(pattern[bar + 1..], value)
  }

  lemma SliceOfSlice(s: string, start: int, end: int)
    requires 0 <= start && 0 <= end < |s| - start
    ensures s[start..][..end] == s[start..start + end]
    ensures s[start..][end + 1..] == s[start + end + 1..]
  {
  }

  lemma {:induction false} UdevUnfold(pattern: string, value: string)
    ensures var bar := IndexOf(pattern, '|');
            UdevMatches(pattern, value) ==
            if bar == -1 then Fnmatch(pattern, value)
            else Fnmatch(pattern[..bar], value) || UdevMatches(pattern[bar + 1..], value)
  {
    hide Fnmatch;
  }

  /** The loop of udevPatternMatches. */
  method UdevPatternMatches(pattern: string, value: string) returns (matches: bool)
    ensures matches == UdevMatches(pattern, value)
  {
    hide Fnmatch, UdevMatches, IndexOf;
    var start := 0;
    assert pattern[0..] == pattern;
    while true
      invariant 0 <= start <= |pattern|
      invariant UdevMatches(pattern, value) == UdevMatches(pattern[start..], value)
      decreases |pattern| - start
    {
      var end := IndexOf(pattern[start..], '|');
      UdevUnfold(pattern[start..], value);
      var alternative := if end == -1 then pattern[start..] else pattern[start..start + end];
      if end >= 0 {
        SliceOfSlice(pattern, start, end);
      }
      if Fnmatch(alternative, value) {
        return true;
      }
      if end == -1 {
        return false;
      }
      start := start + end + 1;
    }
  }

  // ----- what a pattern written by the compiler denotes

  /** No glob character: what `managedDevpath` and `addIdentityTerm` accept. */
  predicate GlobFree(value: string) {
    '*' !in value && '?' !in value && '[' !in value
  }

  /** Neither an alternative separator nor a control byte. */
  predicate Plain(value: string) {
    '|' !in value && forall i :: 0 <= i < |value| ==> !IsControl(value[i])
  }

  function DenotedChar(c: char): (text: string)
  {
    if IsControl(c) then ['x', HEX[c as int / 16], HEX[c as int % 16]] else [c]
  }

  /** The one string an escaped glob-free value matches: fnmatch reads `\x0a` as the letters x0a. */
  function Denoted(value: string): (text: string) {
    if value == "" then "" else DenotedChar(value[0]) + Denoted(value[1..])
  }

  lemma {:induction false} MatchOneChar(c: char, rest: string, s: string)
    requires c != '*' && c != '?' && c != '['
    ensures Fnmatch(EscapeChar(c) + rest, s)
            <==> DenotedChar(c) <= s && Fnmatch(rest, s[|DenotedChar(c)|..])
  {
    var text := EscapeChar(c) + rest;
    if c == '\\' || c == '"' {
      assert text[2..] == rest;
    } else if IsControl(c) {
      var hi, lo := HEX[c as int / 16], HEX[c as int % 16];
      assert text[2..] == [hi, lo] + rest;
      assert hi != '*' && hi != '?' && hi != '\\' && lo != '*' && lo != '?' && lo != '\\';
      assert ([hi, lo] + rest)[1..] == [lo] + rest && ([lo] + rest)[1..] == rest;
      if s != "" && s[0] == 'x' {
        var s1 := s[1..];
        assert Fnmatch(text, s) == Fnmatch([hi, lo] + rest, s1);
        if s1 != "" && s1[0] == hi {
          assert Fnmatch([hi, lo] + rest, s1) == Fnmatch([lo] + rest, s1[1..]);
          if s1[1..] != "" && s1[1..][0] == lo {
            assert s1[1..][1..] == s[3..];
          }
        }
      }
    } else {
      assert text[1..] == rest;
    }
  }

  lemma {:induction false} EscapedPrefixMatches(value: string, tail: string, s: string)
    requires GlobFree(value)
    ensures Fnmatch(Escape(value) + tail, s)
            <==> Denoted(value) <= s && Fnmatch(tail, s[|Denoted(value)|..])
  {
    hide EscapeChar, DenotedChar, Fnmatch;
    if value == "" {
      assert Escape(value) + tail == tail && s[0..] == s;
    } else {
      EscapeHead(value);
      var d, rest := DenotedChar(value[0]), Denoted(value[1..]);
      assert Escape(value) + tail == EscapeChar(value[0]) + (Escape(value[1..]) + tail);
      MatchOneChar(value[0], Escape(value[1..]) + tail, s);
      PrefixSplits(d, rest, s);
      if d <= s {
        EscapedPrefixMatches(value[1..], tail, s[|d|..]);
      }
    }
  }

  lemma PrefixSplits(a: string, b: string, s: string)
    ensures a + b <= s <==> a <= s && b <= s[|a|..]
    ensures a + b <= s ==> s[|a|..][|b|..] == s[|a + b|..]
  {
    if a <= s && b <= s[|a|..] {
      assert s == a + s[|a|..];
      assert s == (a + b) + s[|a|..][|b|..];
    }
    if a + b <= s {
      assert s[..|a|] == (a + b)[..|a|] == a;
      assert s[|a|..][..|b|] == s[|a|..|a + b|] == b;
    }
  }

  lemma {:induction false} DenotedIsPlain(value: string)
    requires '|' !in value
    ensures Plain(Denoted(value))
  {
    if value != "" {
      DenotedIsPlain(value[1..]);
      assert forall k :: 0 <= k < 16 ==> !IsControl(HEX[k]) && HEX[k] != '|';
    }
  }

  lemma {:induction false} DenotedOfPlain(value: string)
    requires Plain(value)
    ensures Denoted(value) == value
  {
    if value != "" {
      DenotedOfPlain(value[1..]);
      assert value == [value[0]] + value[1..];
    }
  }

  lemma {:induction false} StarMatches(s: string)
    ensures Fnmatch("*", s)
  {
    assert "*"[1..] == "";
    if s != "" {
      StarMatches(s[1..]);
    }
  }

  lemma {:induction false} SlashStar(s: string)
    ensures Fnmatch("/*", s) <==> s != "" && s[0] == '/'
  {
    assert "/*"[1..] == "*";
    if s != "" {
      StarMatches(s[1..]);
    }
  }

  // ----- alternatives

  lemma NoBarInChar(c: char)
    requires c != '|'
    ensures '|' !in EscapeChar(c)
  {
    assert forall k :: 0 <= k < 16 ==> HEX[k] != '|';
  }

  lemma {:induction false} NoBarInEscape(value: string)
    requires '|' !in value
    ensures '|' !in Escape(value)
  {
    hide EscapeChar;
    if value != "" {
      NoBarInEscape(value[..|value| - 1]);
      NoBarInChar(value[|value| - 1]);
    }
  }

  lemma {:induction false} FirstAlternative(a: string, rest: string, s: string)
    requires '|' !in a
    ensures UdevMatches(a + "|" + rest, s) <==> Fnmatch(a, s) || UdevMatches(rest, s)
  {
    BarAfter(a, rest);
    UdevUnfold(a + "|" + rest, s);
    hide Fnmatch, UdevMatches, IndexOf;
  }

  lemma BarAfter(a: string, rest: string)
    requires '|' !in a
    ensures var p := a + "|" + rest;
            IndexOf(p, '|') == |a| && p[..|a|] == a && p[|a| + 1..] == rest
  {
    var p := a + "|" + rest;
    assert p[|a|] == '|';
    assert forall k :: 0 <= k < |a| ==> p[k] == a[k];
  }

  lemma {:induction false} EscapedMatchesDenoted(value: string, s: string)
    requires GlobFree(value)
    ensures Fnmatch(Escape(value), s) <==> s == Denoted(value)
  {
    EscapedPrefixMatches(value, "", s);
    assert Escape(value) + "" == Escape(value);
    if Denoted(value) <= s && s[|Denoted(value)|..] == "" {
      assert s == Denoted(value);
    }
  }

  lemma {:induction false} EscapeSplitsAtBar(a: string, b: string)
    ensures Escape(a + "|" + b) == Escape(a) + "|" + Escape(b)
  {
    hide Escape;
    EscapeConcat(a + "|", b);
    EscapeConcat(a, "|");
    EscapeSingle('|');
    assert Escape("|") == "|";
  }

  /** What the rule for a glob-free value selects: each piece between bars, as denoted. */
  predicate Picks(value: string, s: string)
    decreases |value|
  {
    var bar := IndexOf(value, '|');
    if bar == -1 then s == Denoted(value)
    else s == Denoted(value[..bar]) || Picks(value[bar + 1..], s)
  }

  /** What the rule for everything below a glob-free value selects: only the last piece stands
      for what is below it. */
  predicate PicksBelow(value: string, s: string)
    decreases |value|
  {
    var bar := IndexOf(value, '|');
    if bar == -1 then Denoted(value) + "/" <= s
    else s == Denoted(value[..bar]) || PicksBelow(value[bar + 1..], s)
  }

  lemma {:induction false} AroundBar(value: string)
    requires GlobFree(value) && IndexOf(value, '|') != -1
    ensures var bar := IndexOf(value, '|');
            && value == value[..bar] + "|" + value[bar + 1..] && '|' !in value[..bar]
            && GlobFree(value[..bar]) && GlobFree(value[bar + 1..])
  {
  }

  lemma {:induction false} SplitAtBar(value: string, tail: string, s: string)
    requires GlobFree(value) && IndexOf(value, '|') != -1
    ensures var bar := IndexOf(value, '|');
            && GlobFree(value[bar + 1..])
            && (UdevMatches(Escape(value) + tail, s)
                <==> s == Denoted(value[..bar]) || UdevMatches(Escape(value[bar + 1..]) + tail, s))
  {
    hide UdevMatches, Fnmatch, GlobFree, Escape, Denoted, IndexOf;
    AroundBar(value);
    var bar := IndexOf(value, '|');
    var a, b := value[..bar], value[bar + 1..];
    EscapeSplitsAtBar(a, b);
    NoBarInEscape(a);
    assert Escape(value) + tail == Escape(a) + "|" + (Escape(b) + tail);
    FirstAlternative(Escape(a), Escape(b) + tail, s);
    EscapedMatchesDenoted(a, s);
  }

  lemma {:induction false} OneAlternative(pattern: string, s: string)
    requires '|' !in pattern
    ensures UdevMatches(pattern, s) == Fnmatch(pattern, s)
  {
    hide Fnmatch;
    UdevUnfold(pattern, s);
  }

  /** The compiled exact-path and identity patterns, for every glob-free value. */
  lemma {:induction false} EscapedPicks(value: string, s: string)
    requires GlobFree(value)
    ensures UdevMatches(Escape(value), s) <==> Picks(value, s)
    decreases |value|
  {
    hide UdevMatches, Fnmatch, Escape, Denoted, GlobFree;
    var bar := IndexOf(value, '|');
    if bar == -1 {
      NoBarInEscape(value);
      OneAlternative(Escape(value), s);
      EscapedMatchesDenoted(value, s);
    } else {
      SplitAtBar(value, "", s);
      assert Escape(value) + "" == Escape(value) && Escape(value[bar + 1..]) + "" == Escape(value[bar + 1..]);
      EscapedPicks(value[bar + 1..], s);
    }
  }

  /** The compiled children patterns, for every glob-free value. */
  lemma {:induction false} EscapedPicksBelow(value: string, s: string)
    requires GlobFree(value)
    ensures UdevMatches(Escape(value) + "/*", s) <==> PicksBelow(value, s)
    decreases |value|
  {
    hide UdevMatches, Fnmatch, Escape, Denoted, GlobFree;
    var bar := IndexOf(value, '|');
    if bar == -1 {
      NoBarInEscape(value);
      OneAlternative(Escape(value) + "/*", s);
      EscapedPrefixMatches(value, "/*", s);
      SlashAfter(Denoted(value), s);
    } else {
      SplitAtBar(value, "/*", s);
      EscapedPicksBelow(value[bar + 1..], s);
    }
  }

  lemma SlashAfter(text: string, s: string)
    ensures text + "/" <= s <==> text <= s && Fnmatch("/*", s[|text|..])
  {
    hide Fnmatch;
    if text <= s {
      SlashStar(s[|text|..]);
      if s[|text|..] != "" && s[|text|] == '/' {
        assert s[..|text| + 1] == text + "/";
      }
    }
    if text + "/" <= s {
      assert s[|text|] == '/';
      assert s[..|text|] == text;
    }
  }

  /** No alternative of an escaped value matches a string with '|' or a control byte in it. */
  lemma {:induction false} PicksOnlyPlain(value: string, s: string)
    requires Picks(value, s)
    ensures Plain(s)
    decreases |value|
  {
    var bar := IndexOf(value, '|');
    if bar == -1 {
      DenotedIsPlain(value);
    } else if s == Denoted(value[..bar]) {
      DenotedIsPlain(value[..bar]);
    } else {
      PicksOnlyPlain(value[bar + 1..], s);
    }
  }

  /** Every children pattern selects some plain path that ends in a slash. */
  lemma {:induction false} PicksBelowPlain(value: string) returns (s: string)
    ensures PicksBelow(value, s) && Plain(s)
    decreases |value|
  {
    var bar := IndexOf(value, '|');
    if bar == -1 {
      s := Denoted(value) + "/";
      DenotedIsPlain(value);
    } else {
      s := PicksBelowPlain(value[bar + 1..]);
    }
  }

  /** A plain value picks itself, and what is below it. */
  lemma {:induction false} PlainPicks(value: string, s: string)
    requires Plain(value)
    ensures Picks(value, s) <==> s == value
    ensures PicksBelow(value, s) <==> value + "/" <= s
  {
    DenotedOfPlain(value);
  }

  /** No alternative of an escaped value matches a string with '|' or a control byte in it. */
  lemma {:induction false} EscapedMatchesOnlyPlain(value: string, s: string)
    requires GlobFree(value) && UdevMatches(Escape(value), s)
    ensures Plain(s)
  {
    hide UdevMatches, Picks;
    EscapedPicks(value, s);
    PicksOnlyPlain(value, s);
  }

  /** A plain value is matched exactly. */
  lemma {:induction false} PlainMatchesExactly(value: string, s: string)
    requires GlobFree(value) && Plain(value)
    ensures UdevMatches(Escape(value), s) <==> s == value
  {
    hide UdevMatches, Picks;
    EscapedPicks(value, s);
    PlainPicks(value, s);
  }

  // A plain value followed by a slash and a star is matched exactly by the paths strictly below it.
  lemma {:induction false} PlainMatchesBelow(value: string, s: string)
    requires GlobFree(value) && Plain(value)
    ensures UdevMatches(Escape(value) + "/*", s) <==> value + "/" <= s
  {
    hide UdevMatches, PicksBelow;
    EscapedPicksBelow(value, s);
    PlainPicks(value, s);
  }

  /** The pattern picks out one value and nothing else. */
  ghost predicate SelectsExactly(pattern: string, value: string) {
    forall s :: UdevMatches(pattern, s) <==> s == value
  }

  /** The pattern picks out what is below one path and nothing else. */
  ghost predicate SelectsBelow(pattern: string, value: string) {
    forall s :: UdevMatches(pattern, s) <==> value + "/" <= s
  }

  /** The exact condition under which the generated rule for a glob-free value selects that value:
      it holds no '|' and no control byte. Neither `managedDevpath` nor `addIdentityTerm`
      checks this. */
  lemma {:induction false} EscapedPatternExact(value: string)
    requires GlobFree(value)
    ensures SelectsExactly(Escape(value), value) <==> Plain(value)
  {
    hide UdevMatches;
    if Plain(value) {
      forall s ensures UdevMatches(Escape(value), s) <==> s == value {
        PlainMatchesExactly(value, s);
      }
    }
    if SelectsExactly(Escape(value), value) {
      assert UdevMatches(Escape(value), value);
      EscapedMatchesOnlyPlain(value, value);
    }
  }

  /** The same condition for the children rule of a path. */
  lemma {:induction false} EscapedBelowExact(value: string)
    requires GlobFree(value)
    ensures SelectsBelow(Escape(value) + "/*", value) <==> Plain(value)
  {
    hide UdevMatches, PicksBelow;
    if Plain(value) {
      forall s ensures UdevMatches(Escape(value) + "/*", s) <==> value + "/" <= s {
        PlainMatchesBelow(value, s);
      }
    }
    if SelectsBelow(Escape(value) + "/*", value) {
      var s := PicksBelowPlain(value);
      EscapedPicksBelow(value, s);
      assert value + "/" <= s;
      assert forall i :: 0 <= i < |value| ==> value[i] == s[i];
    }
  }

  lemma {:induction false} TwoPieces(a: string, b: string, s: string)
    requires Plain(a) && Plain(b)
    ensures Picks(a + "|" + b, s) <==> s == a || s == b
  {
    BarAfter(a, b);
    DenotedOfPlain(a);
    PlainPicks(b, s);
  }

  /** A path with a bar in it is missed by its own rule, which selects the two pieces. */
  lemma {:induction false} BarIsAnAlternative(a: string, b: string)
    requires Plain(a) && Plain(b) && GlobFree(a) && GlobFree(b)
    ensures GlobFree(a + "|" + b)
    ensures forall s :: UdevMatches(Escape(a + "|" + b), s) <==> s == a || s == b
    ensures !UdevMatches(Escape(a + "|" + b), a + "|" + b)
  {
    hide UdevMatches, Picks, Escape;
    var value := a + "|" + b;
    assert value[|a|] == '|';
    forall s ensures UdevMatches(Escape(value), s) <==> s == a || s == b {
      EscapedPicks(value, s);
      TwoPieces(a, b, s);
    }
  }

  // ----- literal patterns written without escaping

  predicate LiteralPattern(p: string) {
    '*' !in p && '?' !in p && '[' !in p && '|' !in p && '\\' !in p
  }

  lemma {:induction false} LiteralMatchesExactly(p: string, s: string)
    requires LiteralPattern(p)
    ensures UdevMatches(p, s) <==> s == p
  {
    LiteralFnmatch(p, s);
  }

  lemma {:induction false} LiteralFnmatch(p: string, s: string)
    requires LiteralPattern(p)
    ensures Fnmatch(p, s) <==> s == p
  {
    if p != "" && s != "" {
      LiteralFnmatch(p[1..], s[1..]);
      assert p == [p[0]] + p[1..] && s == [s[0]] + s[1..];
    }
  }
}
