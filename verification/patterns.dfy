/** The six regular expressions of MethodParser, each as an explicit scanner, and the
    first-match search of MethodParser.parseSourceString.

    For each pattern, `MatchAt` gives the end of the match that java.util.regex finds at a
    start index (its backtracking tries greedy quantifiers longest first), and `Matches`
    states declaratively which spans the pattern matches at all; `MatchAtIsLongest` proves
    that the scanner returns the longest of them, which for these patterns is the span the
    backtracking matcher reports. Matcher.find then takes the leftmost start index. */
module Patterns {
  import opened Wrappers
  import opened JavaText

  /** The character classes the patterns use. */
  datatype CharClass =
    | Letters        // [a-zA-Z]
    | Lowers         // [a-z]
    | WordChars      // \w
    | Spaces         // \s
    | Blanks         // the literal space
    | ArgumentChars  // [a-zA-Z\s,]

  predicate In(c: char, k: CharClass) {
    match k
    case Letters => IsLetter(c)
    case Lowers => IsLower(c)
    case WordChars => IsWordChar(c)
    case Spaces => IsSpace(c)
    case Blanks => c == ' '
    case ArgumentChars => IsLetter(c) || IsSpace(c) || c == ','
  }

  /** Every character of s[a..b] is in class `k`. */
  ghost predicate AllIn(s: string, a: nat, b: nat, k: CharClass)
    requires a <= b <= |s|
  {
    forall m :: a <= m < b ==> In(s[m], k)
  }

  /** The end of the longest run of class-`k` characters that starts at `i`. */
  function RunEnd(s: string, i: nat, k: CharClass): (e: nat)
    requires i <= |s|
    ensures i <= e <= |s|
    ensures forall m :: i <= m < e ==> In(s[m], k)
    ensures e == |s| || !In(s[e], k)
    decreases |s| - i
  {
    if i < |s| && In(s[i], k) then RunEnd(s, i + 1, k) else i
  }

  /** No run of class-`k` characters from `i` goes past the end RunEnd reports. */
  lemma RunIsMaximal(s: string, i: nat, j: nat, k: CharClass)
    requires i <= j <= |s| && AllIn(s, i, j, k)
    ensures j <= RunEnd(s, i, k)
  {
  }

  /** A run of class-`k` characters from `i` stops at the latest at a character that is
      not in `k`. */
  lemma RunStopsBefore(s: string, i: nat, x: nat, k: CharClass)
    requires i <= x < |s| && !In(s[x], k)
    ensures RunEnd(s, i, k) <= x
  {
  }

  /** A run of class-`k` characters from `i` to `j`, not followed by one, is the run
      RunEnd reports. */
  lemma RunSkip(s: string, i: nat, j: nat, k: CharClass)
    requires i <= j <= |s|
    requires forall m :: i <= m < j ==> In(s[m], k)
    requires j == |s| || !In(s[j], k)
    ensures RunEnd(s, i, k) == j
    decreases j - i
  {
    if i < j {
      RunSkip(s, i + 1, j, k);
    }
  }

  /** The patterns of MethodParser.parseFunction. */
  datatype Pattern =
    | MethodName      // a letter run, optional \s, with '(' ahead
    | ArgumentList    // right after '(': letters, \s and commas, with ')' ahead
    | ArgumentType    // at the start: blanks, then a letter run
    | ArgumentName    // a letter run, optional \s, then the end of the input
    | AccessModifier  // a keyword ahead, then a lowercase run
    | ReturnType      // after a keyword and one \s, or at the start when no keyword is there: \s, then a \w run

  /** The lookahead for one of the access-modifier keywords at index `i`. */
  predicate KeywordAt(s: string, i: nat) {
    OccursAt("private", s, i) || OccursAt("public", s, i) || OccursAt("protected", s, i)
  }

  /** The access-modifier keywords. */
  const Keywords: set<string> := {"private", "public", "protected"}

  /** Every keyword is made of lowercase letters. */
  lemma KeywordsAreLower(w: string, x: nat)
    requires w in Keywords && x < |w|
    ensures IsLower(w[x])
  {
  }

  /** A keyword at `i` is the keyword's letters, all lowercase. */
  lemma KeywordIsLower(s: string, i: nat) returns (w: string)
    requires KeywordAt(s, i)
    ensures w in Keywords && OccursAt(w, s, i)
    ensures forall m :: i <= m < i + |w| ==> IsLower(s[m])
  {
    w := if OccursAt("private", s, i) then "private"
             else if OccursAt("public", s, i) then "public" else "protected";
    forall m | i <= m < i + |w| ensures IsLower(s[m]) {
      assert s[m] == s[i..i + |w|][m - i];
      KeywordsAreLower(w, m - i);
    }
  }

  /** The lookbehind for a keyword followed by one `\s` character, ending at index `i`. */
  predicate KeywordSpaceBefore(s: string, i: nat) {
    && 1 <= i <= |s|
    && IsSpace(s[i - 1])
    && ((i >= 8 && OccursAt("private", s, i - 8))
        || (i >= 7 && OccursAt("public", s, i - 7))
        || (i >= 10 && OccursAt("protected", s, i - 10)))
  }

  predicate IsLineTerminator(c: char) {
    c == '\n' || c == '\r' || IsOtherLineTerminator(c)
  }

  /** `$` without the MULTILINE flag: the end of the input, or just before a final line
      terminator (never between a carriage return and a line feed). */
  predicate DollarAt(s: string, e: nat) {
    || e == |s|
    || (e + 1 == |s| && IsLineTerminator(s[e]) && !(s[e] == '\n' && e > 0 && s[e - 1] == '\r'))
    || (e + 2 == |s| && s[e] == '\r' && s[e + 1] == '\n')
  }

  /** `\s*\w+` from `i`, greedily. */
  function SpacesThenWord(s: string, i: nat): (r: Option<nat>)
    requires i <= |s|
    ensures r.Some? ==> i < r.value <= |s|
  {
    var j := RunEnd(s, i, Spaces);
    if j < |s| && IsWordChar(s[j]) then Some(RunEnd(s, j, WordChars)) else None
  }

  /** The end of the match of `p` that the matcher finds at start index `i`, if any. */
  function MatchAt(p: Pattern, s: string, i: nat): (r: Option<nat>)
    requires i <= |s|
    ensures r.Some? ==> i <= r.value <= |s|
  {
    match p
    case MethodName =>
      if i < |s| && IsLetter(s[i]) then
        var e := RunEnd(s, RunEnd(s, i, Letters), Spaces);
        if e < |s| && s[e] == '(' then Some(e) else None
      else None
    case ArgumentList =>
      if 1 <= i && s[i - 1] == '(' then
        var e := RunEnd(s, i, ArgumentChars);
        if e < |s| && s[e] == ')' then Some(e) else None
      else None
    case ArgumentType =>
      if i == 0 then
        var j := RunEnd(s, 0, Blanks);
        if j < |s| && IsLetter(s[j]) then Some(RunEnd(s, j, Letters)) else None
      else None
    case ArgumentName =>
      if i < |s| && IsLetter(s[i]) then
        var e := RunEnd(s, RunEnd(s, i, Letters), Spaces);
        if DollarAt(s, e) then Some(e) else None
      else None
    case AccessModifier =>
      if KeywordAt(s, i) then Some(RunEnd(s, i, Lowers)) else None
    case ReturnType =>
      var first := if KeywordSpaceBefore(s, i) then SpacesThenWord(s, i) else None;
      if first.Some? then first
      else if i == 0 && !KeywordAt(s, 0) then SpacesThenWord(s, 0)
      else None
  }

  /** The pattern `p` matches the span s[i..e], lookarounds included, whatever order a
      matcher would try the alternatives in. */
  ghost predicate Matches(p: Pattern, s: string, i: nat, e: nat) {
    && i <= e <= |s|
    && match p
       case MethodName =>
         && (exists j: nat :: i < j <= e && AllIn(s, i, j, Letters) && AllIn(s, j, e, Spaces))
         && e < |s| && s[e] == '('
       case ArgumentList =>
         1 <= i && s[i - 1] == '(' && AllIn(s, i, e, ArgumentChars) && e < |s| && s[e] == ')'
       case ArgumentType =>
         i == 0 && exists j: nat :: j < e && AllIn(s, 0, j, Blanks) && AllIn(s, j, e, Letters)
       case ArgumentName =>
         && (exists j: nat :: i < j <= e && AllIn(s, i, j, Letters) && AllIn(s, j, e, Spaces))
         && DollarAt(s, e)
       case AccessModifier =>
         KeywordAt(s, i) && i < e && AllIn(s, i, e, Lowers)
       case ReturnType =>
         && (KeywordSpaceBefore(s, i) || (i == 0 && !KeywordAt(s, 0)))
         && exists j: nat :: i <= j < e && AllIn(s, i, j, Spaces) && AllIn(s, j, e, WordChars)
  }

  // ---------------------------------------------------------------------------
  // The scanner finds the longest match at each start index

  lemma MethodNameIsLongest(s: string, i: nat)
    requires i <= |s|
    ensures MatchAt(MethodName, s, i).Some? ==> Matches(MethodName, s, i, MatchAt(MethodName, s, i).value)
    ensures forall e: nat :: Matches(MethodName, s, i, e) ==> MatchAt(MethodName, s, i) == Some(e)
  {
    if i < |s| && IsLetter(s[i]) {
      var j := RunEnd(s, i, Letters);
      var e := RunEnd(s, j, Spaces);
      assert AllIn(s, i, j, Letters) && AllIn(s, j, e, Spaces);
      forall e': nat | Matches(MethodName, s, i, e') ensures e' == e {
        var j': nat :| i < j' <= e' && AllIn(s, i, j', Letters) && AllIn(s, j', e', Spaces);
        RunIsMaximal(s, i, j', Letters);
        assert !In(s[j'], Letters) by {
          if j' < e' {
            assert In(s[j'], Spaces);
          }
        }
        RunStopsBefore(s, i, j', Letters);
      }
    }
  }

  lemma ArgumentListIsLongest(s: string, i: nat)
    requires i <= |s|
    ensures MatchAt(ArgumentList, s, i).Some? ==> Matches(ArgumentList, s, i, MatchAt(ArgumentList, s, i).value)
    ensures forall e: nat :: Matches(ArgumentList, s, i, e) ==> MatchAt(ArgumentList, s, i) == Some(e)
  {
  }

  lemma ArgumentTypeIsLongest(s: string, i: nat)
    requires i <= |s|
    ensures MatchAt(ArgumentType, s, i).Some? ==> Matches(ArgumentType, s, i, MatchAt(ArgumentType, s, i).value)
    ensures forall e: nat :: Matches(ArgumentType, s, i, e) ==>
              MatchAt(ArgumentType, s, i).Some? && e <= MatchAt(ArgumentType, s, i).value
  {
    if i == 0 {
      var j := RunEnd(s, 0, Blanks);
      if j < |s| && IsLetter(s[j]) {
        var e := RunEnd(s, j, Letters);
        assert AllIn(s, 0, j, Blanks) && AllIn(s, j, e, Letters);
      }
      forall e': nat | Matches(ArgumentType, s, i, e')
        ensures MatchAt(ArgumentType, s, i).Some? && e' <= MatchAt(ArgumentType, s, i).value
      {
        var j': nat :| j' < e' && AllIn(s, 0, j', Blanks) && AllIn(s, j', e', Letters);
        RunIsMaximal(s, 0, j', Blanks);
        assert In(s[j'], Letters);
        RunStopsBefore(s, 0, j', Blanks);
        var e := RunEnd(s, j, Letters);
      }
    }
  }

  lemma ArgumentNameIsLongest(s: string, i: nat)
    requires i <= |s|
    ensures MatchAt(ArgumentName, s, i).Some? ==> Matches(ArgumentName, s, i, MatchAt(ArgumentName, s, i).value)
    ensures forall e: nat :: Matches(ArgumentName, s, i, e) ==>
              MatchAt(ArgumentName, s, i).Some? && e <= MatchAt(ArgumentName, s, i).value
  {
    if i < |s| && IsLetter(s[i]) {
      var j := RunEnd(s, i, Letters);
      var e := RunEnd(s, j, Spaces);
      assert AllIn(s, i, j, Letters) && AllIn(s, j, e, Spaces);
      forall e': nat | Matches(ArgumentName, s, i, e')
        ensures DollarAt(s, e) && e' <= e
      {
        var j': nat :| i < j' <= e' && AllIn(s, i, j', Letters) && AllIn(s, j', e', Spaces);
        RunIsMaximal(s, i, j', Letters);
        if j' < |s| {
          assert !In(s[j'], Letters) by {
            if j' < e' {
              assert In(s[j'], Spaces);
            }
          }
          RunStopsBefore(s, i, j', Letters);
        }
      }
    }
  }

  lemma AccessModifierIsLongest(s: string, i: nat)
    requires i <= |s|
    ensures MatchAt(AccessModifier, s, i).Some? ==> Matches(AccessModifier, s, i, MatchAt(AccessModifier, s, i).value)
    ensures forall e: nat :: Matches(AccessModifier, s, i, e) ==>
              MatchAt(AccessModifier, s, i).Some? && e <= MatchAt(AccessModifier, s, i).value
  {
    if KeywordAt(s, i) {
      var w := KeywordIsLower(s, i);
    }
  }

  lemma ReturnTypeIsLongest(s: string, i: nat)
    requires i <= |s|
    ensures MatchAt(ReturnType, s, i).Some? ==> Matches(ReturnType, s, i, MatchAt(ReturnType, s, i).value)
    ensures forall e: nat :: Matches(ReturnType, s, i, e) ==>
              MatchAt(ReturnType, s, i).Some? && e <= MatchAt(ReturnType, s, i).value
  {
    var j := RunEnd(s, i, Spaces);
    if j < |s| && IsWordChar(s[j]) {
      var e := RunEnd(s, j, WordChars);
      assert AllIn(s, i, j, Spaces) && AllIn(s, j, e, WordChars);
    }
    forall e': nat | Matches(ReturnType, s, i, e')
      ensures MatchAt(ReturnType, s, i).Some? && e' <= MatchAt(ReturnType, s, i).value
    {
      var j': nat :| i <= j' < e' && AllIn(s, i, j', Spaces) && AllIn(s, j', e', WordChars);
      RunIsMaximal(s, i, j', Spaces);
      assert In(s[j'], WordChars);
      RunStopsBefore(s, i, j', Spaces);
      var e := RunEnd(s, j, WordChars);
    }
  }

  /** At every start index the scanner reports the longest span the pattern matches
      there, and nothing when it matches nothing there. */
  lemma MatchAtIsLongest(p: Pattern, s: string, i: nat)
    requires i <= |s|
    ensures MatchAt(p, s, i).Some? ==> Matches(p, s, i, MatchAt(p, s, i).value)
    ensures forall e: nat :: Matches(p, s, i, e) ==> MatchAt(p, s, i).Some? && e <= MatchAt(p, s, i).value
  {
    match p
    case MethodName => MethodNameIsLongest(s, i);
    case ArgumentList => ArgumentListIsLongest(s, i);
    case ArgumentType => ArgumentTypeIsLongest(s, i);
    case ArgumentName => ArgumentNameIsLongest(s, i);
    case AccessModifier => AccessModifierIsLongest(s, i);
    case ReturnType => ReturnTypeIsLongest(s, i);
  }

  // ---------------------------------------------------------------------------
  // Matcher.find: the leftmost start index

  /** Start and end index of a match. */
  datatype Span = Span(start: nat, end: nat)

  /** The first index from `i` up to `n` at which `hit` reports a match, with its end. */
  function FirstFrom(hit: nat -> Option<nat>, n: nat, i: nat): (r: Option<Span>)
    requires i <= n
    ensures r.Some? ==> i <= r.value.start <= n && hit(r.value.start) == Some(r.value.end)
    ensures r.Some? ==> forall k :: i <= k < r.value.start ==> hit(k).None?
    ensures r.None? ==> forall k :: i <= k <= n ==> hit(k).None?
    decreases n - i
  {
    match hit(i)
    case Some(e) => Some(Span(i, e))
    case None => if i == n then None else FirstFrom(hit, n, i + 1)
  }

  /** A hit at `i` with no hit before it is the first one. */
  lemma FirstFromHit(hit: nat -> Option<nat>, n: nat, i: nat, e: nat)
    requires i <= n && hit(i) == Some(e)
    requires forall k :: 0 <= k < i ==> hit(k).None?
    ensures FirstFrom(hit, n, 0) == Some(Span(i, e))
  {
  }

  /** The scanner of `p` on `s` at each start index. */
  function Scanner(p: Pattern, s: string): nat -> Option<nat>
  {
    (k: nat) => if k <= |s| then MatchAt(p, s, k) else None
  }

  /** The first start index from `i` on at which the scanner matches, with its end. */
  function FirstMatchFrom(p: Pattern, s: string, i: nat): (r: Option<Span>)
    requires i <= |s|
    ensures r.Some? ==> i <= r.value.start <= |s| && MatchAt(p, s, r.value.start) == Some(r.value.end)
    ensures r.Some? ==> forall k :: i <= k < r.value.start ==> MatchAt(p, s, k).None?
    ensures r.None? ==> forall k :: i <= k <= |s| ==> MatchAt(p, s, k).None?
  {
    var r := FirstFrom(Scanner(p, s), |s|, i);
    assert forall k: nat :: k <= |s| ==> Scanner(p, s)(k) == MatchAt(p, s, k);
    r
  }

  /** The pattern matches nowhere in `s`. */
  ghost predicate NoMatch(p: Pattern, s: string) {
    forall i: nat, e: nat :: !Matches(p, s, i, e)
  }

  /** s[i..e] is the match Matcher.find reports first: no match starts further left, and
      no longer match starts at `i`. */
  ghost predicate LeftmostLongest(p: Pattern, s: string, i: nat, e: nat) {
    && Matches(p, s, i, e)
    && (forall k: nat, e': nat :: k < i ==> !Matches(p, s, k, e'))
    && (forall e': nat :: Matches(p, s, i, e') ==> e' <= e)
  }

  /** MethodParser.parseSourceString: the text of the first match of `p` in `s`, or
      nothing (the Java code returns null) when the pattern matches nowhere. */
  function ParseSourceString(p: Pattern, s: string): (r: Option<string>)
  {
    var m := FirstMatchFrom(p, s, 0);
    if m.Some? then Some(s[m.value.start..m.value.end]) else None
  }

  /** parseSourceString returns nothing exactly when the pattern matches nowhere, and
      otherwise the text of the leftmost match, as long as it can be at that start. */
  lemma ParseSourceStringIsFind(p: Pattern, s: string)
    ensures ParseSourceString(p, s).None? <==> NoMatch(p, s)
    ensures ParseSourceString(p, s).Some? ==>
              exists i: nat, e: nat :: LeftmostLongest(p, s, i, e) && i <= e <= |s| && ParseSourceString(p, s).value == s[i..e]
  {
    FirstMatchIsLeftmostLongest(p, s);
  }

  /** The scanner-based search agrees with the declarative reading of the pattern. */
  lemma FirstMatchIsLeftmostLongest(p: Pattern, s: string)
    ensures FirstMatchFrom(p, s, 0).None? <==> NoMatch(p, s)
    ensures FirstMatchFrom(p, s, 0).Some? ==>
              LeftmostLongest(p, s, FirstMatchFrom(p, s, 0).value.start, FirstMatchFrom(p, s, 0).value.end)
  {
    var m := FirstMatchFrom(p, s, 0);
    forall i: nat, e: nat | Matches(p, s, i, e)
      ensures m.Some? && m.value.start <= i
      ensures i == m.value.start ==> e <= m.value.end
    {
      MatchAtIsLongest(p, s, i);
    }
    if m.Some? {
      MatchAtIsLongest(p, s, m.value.start);
    }
  }

  /** There is exactly one leftmost-longest match, so it determines the result. */
  lemma LeftmostLongestIsUnique(p: Pattern, s: string, i: nat, e: nat)
    requires LeftmostLongest(p, s, i, e)
    ensures ParseSourceString(p, s) == Some(s[i..e])
  {
    var m := FirstMatchFrom(p, s, 0);
    FirstMatchIsLeftmostLongest(p, s);
    assert m.Some?;
    SameLeftmostLongest(p, s, i, e, m.value.start, m.value.end);
  }

  lemma SameLeftmostLongest(p: Pattern, s: string, i: nat, e: nat, i': nat, e': nat)
    requires LeftmostLongest(p, s, i, e) && LeftmostLongest(p, s, i', e')
    ensures i == i' && e == e'
  {
  }

  /** A scanner hit at `i` with no hit further left is what parseSourceString returns. */
  lemma FirstHit(p: Pattern, s: string, i: nat, e: nat)
    requires i <= |s| && MatchAt(p, s, i) == Some(e)
    requires forall k :: 0 <= k < i ==> MatchAt(p, s, k).None?
    ensures ParseSourceString(p, s) == Some(s[i..e])
  {
    assert forall k :: 0 <= k < i ==> Scanner(p, s)(k).None?;
    FirstFromHit(Scanner(p, s), |s|, i, e);
  }
}
