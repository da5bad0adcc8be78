/** StringSplitter.splitByDelimiters: the delimiter strings are joined into one string, and
    every character of that string separates tokens, as java.util.StringTokenizer does.
    The result is the list of maximal non-empty runs of non-delimiter characters. */
module StringSplitter {

  /** `c` is a character of one of the delimiter strings. */
  ghost predicate InSomeDelimiter(c: char, delimiters: seq<string>) {
    exists i :: 0 <= i < |delimiters| && c in delimiters[i]
  }

  /** Joining strings end to end, as Collectors.joining() with no separator does: a
      character of the joined string is a character of one of the parts. */
  function Concat(parts: seq<string>): (r: string)
    ensures forall c :: c in r <==> InSomeDelimiter(c, parts)
  {
    if parts == [] then []
    else
      var r := parts[0] + Concat(parts[1..]);
      assert forall c :: c in r <==> InSomeDelimiter(c, parts) by {
        forall c ensures c in r <==> InSomeDelimiter(c, parts) {
          if InSomeDelimiter(c, parts[1..]) {
            var i :| 0 <= i < |parts[1..]| && c in parts[1..][i];
            assert c in parts[i + 1];
          }
          if InSomeDelimiter(c, parts) && c !in parts[0] {
            var i :| 0 <= i < |parts| && c in parts[i];
            assert i > 0 && c in parts[1..][i - 1];
          }
        }
      }
      r
  }

  /** The set of separator characters: exactly the characters that occur in some delimiter
      string, however the strings group or order them. */
  function DelimiterChars(delimiters: seq<string>): (d: set<char>)
    ensures forall c :: c in d <==> InSomeDelimiter(c, delimiters)
  {
    set c | c in Concat(delimiters)
  }

  /** The separator characters are the characters of the joined delimiter string. */
  lemma DelimiterCharsAreJoined(delimiters: seq<string>)
    ensures forall c :: c in DelimiterChars(delimiters) <==> c in Concat(delimiters)
  {
  }

  /** No character of `t` is a delimiter. */
  predicate NoneIn(t: string, d: set<char>) {
    forall i :: 0 <= i < |t| ==> t[i] !in d
  }

  /** Every character of `t` is a delimiter. */
  predicate AllIn(t: string, d: set<char>) {
    forall i :: 0 <= i < |t| ==> t[i] in d
  }

  /** The length of the run of non-delimiters at the front of `s`: the run stops at the
      first delimiter or at the end. */
  function RunLength(s: string, d: set<char>): (n: nat)
    ensures n <= |s| && NoneIn(s[..n], d)
    ensures n == |s| || s[n] in d
  {
    if s == [] || s[0] in d then 0 else 1 + RunLength(s[1..], d)
  }

  /** The tokens of `s`: delimiters are dropped, each maximal run of other characters is
      one token. Every token is non-empty and free of delimiters. */
  function Tokens(s: string, d: set<char>): (r: seq<string>)
    ensures forall k :: 0 <= k < |r| ==> r[k] != [] && NoneIn(r[k], d)
    decreases |s|
  {
    if s == [] then []
    else if s[0] in d then Tokens(s[1..], d)
    else
      var n := RunLength(s, d);
      [s[..n]] + Tokens(s[n..], d)
  }

  /** `s` with every delimiter character removed. */
  function Without(s: string, d: set<char>): string
  {
    if s == [] then [] else (if s[0] in d then [] else [s[0]]) + Without(s[1..], d)
  }

  // ---------------------------------------------------------------------------
  // The imperative scanner, shaped like the StringTokenizer loop

  /** StringTokenizer's skipping of delimiters: the first index at or after `from`
      that is not a delimiter, or the end. */
  method SkipDelimiters(s: string, delimitersString: string, from: nat) returns (p: nat)
    requires from <= |s|
    ensures from <= p <= |s|
    ensures forall i :: from <= i < p ==> s[i] in delimitersString
    ensures p == |s| || s[p] !in delimitersString
  {
    p := from;
    while p < |s| && s[p] in delimitersString
      invariant from <= p <= |s|
      invariant forall i :: from <= i < p ==> s[i] in delimitersString
    {
      p := p + 1;
    }
  }

  /** StringTokenizer's scanning of a token: the first index at or after `from` that is
      a delimiter, or the end. */
  method ScanToken(s: string, delimitersString: string, from: nat) returns (p: nat)
    requires from <= |s|
    ensures from <= p <= |s|
    ensures forall i :: from <= i < p ==> s[i] !in delimitersString
    ensures p == |s| || s[p] in delimitersString
  {
    p := from;
    while p < |s| && s[p] !in delimitersString
      invariant from <= p <= |s|
      invariant forall i :: from <= i < p ==> s[i] !in delimitersString
    {
      p := p + 1;
    }
  }

  /** Skipping a run of delimiters does not change the tokens. */
  lemma {:induction false} TokensSkip(s: string, d: set<char>, from: nat, to: nat)
    requires from <= to <= |s|
    requires forall i :: from <= i < to ==> s[i] in d
    ensures Tokens(s[from..], d) == Tokens(s[to..], d)
    decreases |s| - from
  {
    if from < to {
      assert s[from..][1..] == s[from + 1..];
      TokensSkip(s, d, from + 1, to);
    }
  }

  /** A maximal run of non-delimiters is the next token. */
  lemma TokensRun(s: string, d: set<char>, from: nat, to: nat)
    requires from < to <= |s|
    requires forall i :: from <= i < to ==> s[i] !in d
    requires to == |s| || s[to] in d
    ensures Tokens(s[from..], d) == [s[from..to]] + Tokens(s[to..], d)
  {
    var t := s[from..];
    var n := RunLength(t, d);
    assert t[..n] == s[from..to];
    assert t[n..] == s[to..];
  }

  /** splitByDelimiters: join the delimiter strings, then collect the tokens one by one
      while the tokenizer has more. The result is the token list of the source under the
      set of delimiter characters. */
  method SplitByDelimiters(source: string, delimiters: seq<string>) returns (result: seq<string>)
    ensures result == Tokens(source, DelimiterChars(delimiters))
  {
    var delimitersString := Concat(delimiters);
    ghost var d := DelimiterChars(delimiters);
    DelimiterCharsAreJoined(delimiters);
    result := [];
    var pos := SkipDelimiters(source, delimitersString, 0);
    TokensSkip(source, d, 0, pos);
    while pos < |source|
      invariant pos <= |source|
      invariant pos < |source| ==> source[pos] !in d
      invariant result + Tokens(source[pos..], d) == Tokens(source, d)
      decreases |source| - pos
    {
      var end := ScanToken(source, delimitersString, pos);
      TokensRun(source, d, pos, end);
      result := result + [source[pos..end]];
      pos := SkipDelimiters(source, delimitersString, end);
      TokensSkip(source, d, end, pos);
    }
    assert source[pos..] == [];
  }

  // ---------------------------------------------------------------------------
  // What the tokens are

  lemma {:induction false} WithoutRun(s: string, d: set<char>, n: nat)
    requires n <= |s| && NoneIn(s[..n], d)
    ensures Without(s, d) == s[..n] + Without(s[n..], d)
  {
    if n > 0 {
      assert s[0] == s[..n][0];
      WithoutRun(s[1..], d, n - 1);
      assert s[1..][..n - 1] == s[..n][1..];
      assert s[1..][n - 1..] == s[n..];
      assert s[..n] == [s[0]] + s[1..][..n - 1];
    }
  }

  /** Joining the tokens back in order gives the source with its delimiters removed:
      nothing but delimiters is lost, and the order of the text is kept. */
  lemma {:induction false} ConcatTokens(s: string, d: set<char>)
    ensures Concat(Tokens(s, d)) == Without(s, d)
    decreases |s|
  {
    if s != [] {
      if s[0] in d {
        ConcatTokens(s[1..], d);
      } else {
        var n := RunLength(s, d);
        ConcatTokens(s[n..], d);
        WithoutRun(s, d, n);
        assert Concat(Tokens(s, d)) == s[..n] + Concat(Tokens(s[n..], d));
      }
    }
  }

  /** The delimiter runs `seps` and tokens `toks` laid out alternately:
      seps[0] + toks[0] + seps[1] + ... + toks[k-1] + seps[k]. */
  function Weave(seps: seq<string>, toks: seq<string>): string
    requires |seps| == |toks| + 1
  {
    if toks == [] then seps[0] else seps[0] + toks[0] + Weave(seps[1..], toks[1..])
  }

  /** `s` is laid out as delimiter runs alternating with tokens; every token is non-empty
      and delimiter-free, and the runs between two tokens are non-empty, so every token is
      bounded on both sides by a delimiter or by an end of `s`. */
  ghost predicate IsTokenization(s: string, d: set<char>, toks: seq<string>, seps: seq<string>) {
    && |seps| == |toks| + 1
    && s == Weave(seps, toks)
    && (forall k :: 0 <= k < |toks| ==> toks[k] != [] && NoneIn(toks[k], d))
    && (forall k :: 0 <= k < |seps| ==> AllIn(seps[k], d))
    && (forall k :: 0 < k < |toks| ==> seps[k] != [])
  }

  /** The delimiter runs around the tokens of `s`. */
  function Separators(s: string, d: set<char>): (r: seq<string>)
    ensures |r| == |Tokens(s, d)| + 1
    decreases |s|
  {
    if s == [] then [[]]
    else if s[0] in d then
      var r := Separators(s[1..], d);
      [[s[0]] + r[0]] + r[1..]
    else [[]] + Separators(s[RunLength(s, d)..], d)
  }

  /** Moving the first delimiter run out of a layout. */
  lemma WeaveFirst(seps: seq<string>, toks: seq<string>)
    requires |seps| == |toks| + 1
    ensures Weave(seps, toks) == seps[0] + Weave([[]] + seps[1..], toks)
  {
    var seps' := [[]] + seps[1..];
    if toks == [] {
      assert seps[0] + [] == seps[0];
    } else {
      var w := Weave(seps[1..], toks[1..]);
      assert seps'[1..] == seps[1..];
      assert Weave(seps', toks) == [] + toks[0] + w;
      Regroup(seps[0], toks[0], w);
    }
  }

  lemma Regroup(a: string, b: string, c: string)
    ensures a + b + c == a + ([] + b + c)
  {
  }

  /** A delimiter in front of a layout joins the first delimiter run. */
  lemma PrependDelimiter(c: char, x: string, d: set<char>, toks: seq<string>, seps: seq<string>)
    requires c in d && IsTokenization(x, d, toks, seps)
    ensures IsTokenization([c] + x, d, toks, [[c] + seps[0]] + seps[1..])
  {
    var seps' := [[c] + seps[0]] + seps[1..];
    WeaveFirst(seps', toks);
    WeaveFirst(seps, toks);
    assert seps'[1..] == seps[1..];
    assert forall k :: 0 < k < |seps'| ==> seps'[k] == seps[k];
  }

  /** A token in front of a layout that starts with a delimiter (when it has tokens)
      is a new first token. */
  lemma PrependToken(t: string, x: string, d: set<char>, toks: seq<string>, seps: seq<string>)
    requires t != [] && NoneIn(t, d) && IsTokenization(x, d, toks, seps)
    requires toks != [] ==> seps[0] != []
    ensures IsTokenization(t + x, d, [t] + toks, [[]] + seps)
  {
    var seps' := [[]] + seps;
    var toks' := [t] + toks;
    assert seps'[1..] == seps && toks'[1..] == toks;
    assert forall k :: 1 < k < |toks'| ==> seps'[k] == seps[k - 1];
  }

  /** The tokens sit in the source exactly where they were found, separated by the
      delimiter runs. */
  lemma {:induction false} TokensTokenize(s: string, d: set<char>)
    ensures IsTokenization(s, d, Tokens(s, d), Separators(s, d))
    decreases |s|
  {
    if s == [] {
    } else if s[0] in d {
      TokensTokenize(s[1..], d);
      PrependDelimiter(s[0], s[1..], d, Tokens(s[1..], d), Separators(s[1..], d));
      assert [s[0]] + s[1..] == s;
    } else {
      var n := RunLength(s, d);
      var x := s[n..];
      TokensTokenize(x, d);
      if Tokens(x, d) != [] {
        assert x != [] && x[0] in d;
      }
      PrependToken(s[..n], x, d, Tokens(x, d), Separators(x, d));
      assert s[..n] + x == s;
    }
  }

  /** A layout whose first delimiter run is non-empty starts with a delimiter, and the
      rest of the source is laid out with that run one character shorter. */
  lemma DropDelimiter(s: string, d: set<char>, toks: seq<string>, seps: seq<string>)
    requires IsTokenization(s, d, toks, seps) && seps[0] != []
    ensures s != [] && s[0] in d
    ensures IsTokenization(s[1..], d, toks, [seps[0][1..]] + seps[1..])
  {
    var seps' := [seps[0][1..]] + seps[1..];
    WeaveFirst(seps, toks);
    WeaveFirst(seps', toks);
    assert seps'[1..] == seps[1..];
    assert seps[0] == [seps[0][0]] + seps'[0];
    assert s == [seps[0][0]] + Weave(seps', toks);
    assert forall k :: 0 < k < |seps'| ==> seps'[k] == seps[k];
    assert AllIn(seps'[0], d);
  }

  /** A layout whose first delimiter run is empty and which has a token starts with that
      token, followed by a layout of the remaining tokens that is empty or starts with a
      delimiter. */
  lemma DropToken(s: string, d: set<char>, toks: seq<string>, seps: seq<string>)
    requires IsTokenization(s, d, toks, seps) && seps[0] == [] && toks != []
    ensures |toks[0]| <= |s| && s[..|toks[0]|] == toks[0]
    ensures var w := s[|toks[0]|..]; w == [] || w[0] in d
    ensures IsTokenization(s[|toks[0]|..], d, toks[1..], seps[1..])
  {
    var w := Weave(seps[1..], toks[1..]);
    assert s == toks[0] + w;
    assert s[|toks[0]|..] == w;
    if w != [] {
      WeaveFirst(seps[1..], toks[1..]);
      assert w[0] == seps[1][0];
    }
    assert forall k :: 0 < k < |toks[1..]| ==> seps[1..][k] == seps[k + 1];
  }

  /** Any layout of `s` as delimiter runs alternating with non-empty delimiter-free tokens
      has exactly the tokens that splitting finds: the tokens are the maximal runs. */
  lemma {:induction false} TokenizationIsUnique(s: string, d: set<char>, toks: seq<string>, seps: seq<string>)
    requires IsTokenization(s, d, toks, seps)
    ensures toks == Tokens(s, d)
    decreases |s|
  {
    if seps[0] != [] {
      DropDelimiter(s, d, toks, seps);
      TokenizationIsUnique(s[1..], d, toks, [seps[0][1..]] + seps[1..]);
    } else if toks != [] {
      var n := |toks[0]|;
      DropToken(s, d, toks, seps);
      assert s[0..] == s && s[0..n] == s[..n];
      TokensRun(s, d, 0, n);
      TokenizationIsUnique(s[n..], d, toks[1..], seps[1..]);
    }
  }

  /** The boundary cases: an empty source has no tokens, and a non-empty source without
      delimiter characters is one token, in particular when there are no delimiters. */
  lemma EdgeCases(s: string, d: set<char>)
    ensures Tokens([], d) == []
    ensures s != [] && NoneIn(s, d) ==> Tokens(s, d) == [s]
    ensures s != [] ==> Tokens(s, DelimiterChars([])) == [s]
  {
    assert s[0..] == s;
    if s != [] && NoneIn(s, d) {
      TokensRun(s, d, 0, |s|);
      assert s[0..|s|] == s && s[|s|..] == [];
    }
    if s != [] {
      assert DelimiterChars([]) == {};
      TokensRun(s, {}, 0, |s|);
      assert s[0..|s|] == s && s[|s|..] == [];
    }
  }

  /** Only the set of delimiter characters matters: delimiter collections that use the same
      characters, however grouped into strings and in whatever order, split alike. */
  lemma SameCharactersSameTokens(s: string, d1: seq<string>, d2: seq<string>)
    requires forall c :: InSomeDelimiter(c, d1) <==> InSomeDelimiter(c, d2)
    ensures Tokens(s, DelimiterChars(d1)) == Tokens(s, DelimiterChars(d2))
  {
    assert DelimiterChars(d1) == DelimiterChars(d2);
  }

  /** Reordering the delimiter collection does not change the result. */
  lemma ReorderedDelimiters(s: string, d1: seq<string>, d2: seq<string>)
    requires multiset(d1) == multiset(d2)
    ensures Tokens(s, DelimiterChars(d1)) == Tokens(s, DelimiterChars(d2))
  {
    forall c ensures InSomeDelimiter(c, d1) ==> InSomeDelimiter(c, d2) {
      if InSomeDelimiter(c, d1) {
        var i :| 0 <= i < |d1| && c in d1[i];
        assert d1[i] in multiset(d2);
        var j :| 0 <= j < |d2| && d2[j] == d1[i];
      }
    }
    forall c ensures InSomeDelimiter(c, d2) ==> InSomeDelimiter(c, d1) {
      if InSomeDelimiter(c, d2) {
        var i :| 0 <= i < |d2| && c in d2[i];
        assert d2[i] in multiset(d1);
        var j :| 0 <= j < |d1| && d1[j] == d2[i];
      }
    }
    SameCharactersSameTokens(s, d1, d2);
  }

  /** The separator characters of {",", ";"} and of {",;"} are the same two. */
  lemma DelimiterCharsExample()
    ensures DelimiterChars([",", ";"]) == {',', ';'}
    ensures DelimiterChars([",;"]) == {',', ';'}
  {
    assert InSomeDelimiter(',', [",", ";"]) by { assert ',' in [",", ";"][0]; }
    assert InSomeDelimiter(';', [",", ";"]) by { assert ';' in [",", ";"][1]; }
    assert InSomeDelimiter(',', [",;"]) by { assert ',' in [",;"][0]; }
    assert InSomeDelimiter(';', [",;"]) by { assert ';' in [",;"][0]; }
  }

  /** "a,b;;c" laid out as the tokens a, b, c between the delimiter runs "", ",", ";;", "". */
  lemma ExampleLayout()
    ensures IsTokenization("a,b;;c", {',', ';'}, ["a", "b", "c"], ["", ",", ";;", ""])
  {
    var toks := ["a", "b", "c"];
    var seps := ["", ",", ";;", ""];
    assert Weave(seps[3..], toks[3..]) == "";
    assert Weave(seps[2..], toks[2..]) == ";;c";
    assert Weave(seps[1..], toks[1..]) == ",b;;c";
    assert Weave(seps, toks) == "a,b;;c";
  }

  /** The documented behaviour on a small input: "a,b;;c" split by "," and ";" (or by
      ",;") gives a, b and c. */
  lemma SplitExample()
    ensures Tokens("a,b;;c", DelimiterChars([",", ";"])) == ["a", "b", "c"]
    ensures Tokens("a,b;;c", DelimiterChars([",;"])) == ["a", "b", "c"]
  {
    DelimiterCharsExample();
    ExampleLayout();
    TokenizationIsUnique("a,b;;c", {',', ';'}, ["a", "b", "c"], ["", ",", ";;", ""]);
  }
}
