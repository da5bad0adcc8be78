/** The signature format that MethodParser.parseFunction documents, written out from a
    MethodSignature: an optional access modifier and a space, the return type and a
    space, the method name, then the arguments "type name" between parentheses and
    separated by ", ". `RoundTrip` proves that parseFunction reads every such signature
    back into the MethodSignature it was written from, and the three documented examples
    follow from it. */
module Rendering {
  import opened Wrappers
  import opened JavaText
  import opened Patterns
  import opened MethodParser

  // ---------------------------------------------------------------------------
  // Writing a signature out

  /** "type name" */
  function RenderArgument(a: Argument): string {
    a.argType + " " + a.name
  }

  function RenderArguments(args: seq<Argument>): seq<string> {
    seq(|args|, k requires 0 <= k < |args| => RenderArgument(args[k]))
  }

  /** The text between the parentheses. */
  function ArgumentText(args: seq<Argument>): string {
    JoinCommaSpace(RenderArguments(args))
  }

  /** The access modifier and the return type, each followed by a space. */
  function Prefix(sig: MethodSignature): string {
    (if sig.accessModifier.Some? then sig.accessModifier.value + " " else "")
    + (if sig.returnType.Some? then sig.returnType.value + " " else "")
  }

  /** The signature as the documented format writes it. */
  function Render(sig: MethodSignature): string {
    Prefix(sig) + sig.name + "(" + ArgumentText(sig.arguments) + ")"
  }

  /** A non-empty run of letters, as `[a-zA-Z]+` matches it. */
  predicate IsWord(w: string) {
    w != [] && AllLetters(w)
  }

  /** No access-modifier keyword occurs in `s`. */
  ghost predicate NoKeyword(s: string) {
    forall k: nat :: !KeywordAt(s, k)
  }

  /** The signatures the documented format describes and the patterns read back
      unchanged: a keyword or no modifier, a `\w` return type, letter words for the
      name and for each argument's type and name, and, when there is no modifier, no
      keyword anywhere (the modifier pattern would find it inside a word). */
  ghost predicate Renderable(sig: MethodSignature) {
    && (sig.accessModifier.Some? ==> sig.accessModifier.value in Keywords)
    && sig.returnType.Some? && sig.returnType.value != [] && AllWordChars(sig.returnType.value)
    && IsWord(sig.name)
    && (forall k :: 0 <= k < |sig.arguments| ==> IsWord(sig.arguments[k].argType) && IsWord(sig.arguments[k].name))
    && (sig.accessModifier.None? ==>
          && NoKeyword(sig.returnType.value)
          && NoKeyword(sig.name)
          && forall k :: 0 <= k < |sig.arguments| ==>
               NoKeyword(sig.arguments[k].argType) && NoKeyword(sig.arguments[k].name))
  }

  // ---------------------------------------------------------------------------
  // Where the name and the argument-list patterns match

  /** `s` is a prefix of `\w` characters and spaces ending in a space, then a letter
      run from `n0` to the '(' at `paren`, then `[a-zA-Z\s,]` characters and a final ')'. */
  ghost predicate Layout(s: string, n0: nat, paren: nat) {
    && 0 < n0 < paren < |s| - 1
    && s[n0 - 1] == ' '
    && (forall m :: 0 <= m < n0 ==> IsWordChar(s[m]) || s[m] == ' ')
    && (forall m :: n0 <= m < paren ==> IsLetter(s[m]))
    && s[paren] == '('
    && (forall m :: paren < m < |s| - 1 ==> In(s[m], ArgumentChars))
    && s[|s| - 1] == ')'
  }

  /** No name match starts inside the prefix: every letter run there is followed by a
      space and the run of spaces by a letter or another `\w` character. */
  lemma NoNameInPrefix(s: string, n0: nat, paren: nat, k: nat)
    requires Layout(s, n0, paren) && k < n0
    ensures MatchAt(MethodName, s, k).None?
  {
    if IsLetter(s[k]) {
      RunStopsBefore(s, k, n0 - 1, Letters);
      var j := RunEnd(s, k, Letters);
      RunStopsBefore(s, j, n0, Spaces);
    }
  }

  /** The name pattern first matches the letter run in front of the '('. */
  lemma NameOfLayout(s: string, n0: nat, paren: nat, name: string)
    requires Layout(s, n0, paren) && s[n0..paren] == name
    ensures ParseSourceString(MethodName, s) == Some(name)
  {
    RunSkip(s, n0, paren, Letters);
    RunSkip(s, paren, paren, Spaces);
    assert MatchAt(MethodName, s, n0) == Some(paren);
    forall k | 0 <= k < n0 ensures MatchAt(MethodName, s, k).None? {
      NoNameInPrefix(s, n0, paren, k);
    }
    FirstHit(MethodName, s, n0, paren);
  }

  /** The argument-list pattern first matches everything between the parentheses. */
  lemma ArgumentTextOfLayout(s: string, n0: nat, paren: nat, text: string)
    requires Layout(s, n0, paren) && s[paren + 1..|s| - 1] == text
    ensures ParseSourceString(ArgumentList, s) == Some(text)
  {
    forall k | 0 <= k <= paren ensures MatchAt(ArgumentList, s, k).None? {
      if k >= 1 {
        assert s[k - 1] != '(';
      }
    }
    RunSkip(s, paren + 1, |s| - 1, ArgumentChars);
    assert MatchAt(ArgumentList, s, paren + 1) == Some(|s| - 1);
    FirstHit(ArgumentList, s, paren + 1, |s| - 1);
  }

  // ---------------------------------------------------------------------------
  // The rendered argument text

  /** Joining pieces of `[a-zA-Z\s,]` characters with ", " keeps to that class. */
  lemma {:induction false} JoinArgumentChars(ps: seq<string>)
    requires forall k, m :: 0 <= k < |ps| && 0 <= m < |ps[k]| ==> In(ps[k][m], ArgumentChars)
    ensures forall m :: 0 <= m < |JoinCommaSpace(ps)| ==> In(JoinCommaSpace(ps)[m], ArgumentChars)
  {
    if |ps| > 1 {
      JoinArgumentChars(ps[1..]);
      var rest := JoinCommaSpace(ps[1..]);
      var j := JoinCommaSpace(ps);
      assert j == ps[0] + ", " + rest;
      forall m | 0 <= m < |j| ensures In(j[m], ArgumentChars) {
        if m < |ps[0]| {
          assert j[m] == ps[0][m];
        } else if m >= |ps[0]| + 2 {
          assert j[m] == rest[m - |ps[0]| - 2];
        }
      }
    }
  }

  /** A join of non-empty pieces starts with the first piece's first character and
      ends with the last piece's last character. */
  lemma JoinEnds(ps: seq<string>)
    requires |ps| >= 1 && ps[0] != [] && ps[|ps| - 1] != []
    ensures JoinCommaSpace(ps) != []
    ensures JoinCommaSpace(ps)[0] == ps[0][0]
    ensures JoinCommaSpace(ps)[|JoinCommaSpace(ps)| - 1] == ps[|ps| - 1][|ps[|ps| - 1]| - 1]
  {
    if |ps| >= 2 {
      JoinLast(ps);
    }
  }

  /** The argument text is made of `[a-zA-Z\s,]` characters, and is empty or starts and
      ends with a letter. */
  lemma ArgumentTextShape(args: seq<Argument>)
    requires forall k :: 0 <= k < |args| ==> IsWord(args[k].argType) && IsWord(args[k].name)
    ensures forall m :: 0 <= m < |ArgumentText(args)| ==> In(ArgumentText(args)[m], ArgumentChars)
    ensures args == [] <==> ArgumentText(args) == []
    ensures args != [] ==> IsLetter(ArgumentText(args)[0])
    ensures args != [] ==> IsLetter(ArgumentText(args)[|ArgumentText(args)| - 1])
  {
    var ps := RenderArguments(args);
    forall k, m | 0 <= k < |ps| && 0 <= m < |ps[k]| ensures In(ps[k][m], ArgumentChars) {
      var a := args[k];
      if m < |a.argType| {
        assert ps[k][m] == a.argType[m];
      } else if m > |a.argType| {
        assert ps[k][m] == a.name[m - |a.argType| - 1];
      }
    }
    JoinArgumentChars(ps);
    if args != [] {
      var last := args[|args| - 1];
      assert ps[|ps| - 1][|ps[|ps| - 1]| - 1] == last.name[|last.name| - 1];
      JoinEnds(ps);
    }
  }

  /** parseFunction splits the rendered argument text back into the rendered arguments. */
  lemma FragmentsOfArgumentText(args: seq<Argument>)
    requires forall k :: 0 <= k < |args| ==> IsWord(args[k].argType) && IsWord(args[k].name)
    ensures Fragments(ArgumentText(args)) == RenderArguments(args)
  {
    ArgumentTextShape(args);
    var ps := RenderArguments(args);
    if args != [] {
      TrimIdentity(ArgumentText(args));
      forall k, m | 0 <= k < |ps| && 0 <= m < |ps[k]| ensures ps[k][m] != ',' {
        var a := args[k];
        if m < |a.argType| {
          assert ps[k][m] == a.argType[m];
        } else if m > |a.argType| {
          assert ps[k][m] == a.name[m - |a.argType| - 1];
        }
      }
      SplitOfJoin(ps);
    }
  }

  /** Every rendered argument parses back into the argument. */
  lemma ParseRenderedArguments(args: seq<Argument>)
    requires forall k :: 0 <= k < |args| ==> IsWord(args[k].argType) && IsWord(args[k].name)
    ensures ParseArguments(RenderArguments(args)) == Success(args)
  {
    var ps := RenderArguments(args);
    forall k | 0 <= k < |ps| ensures ParseArgument(ps[k]) == Success(args[k]) {
      TwoWordFragment(args[k].argType, args[k].name);
    }
    ParseEachAll(ps, ParseArgument, args);
  }

  // ---------------------------------------------------------------------------
  // The rendered signature

  /** The prefix ends with a space and holds only `\w` characters and spaces. */
  lemma PrefixShape(sig: MethodSignature)
    requires Renderable(sig)
    ensures Prefix(sig) != [] && Prefix(sig)[|Prefix(sig)| - 1] == ' '
    ensures forall m :: 0 <= m < |Prefix(sig)| ==> IsWordChar(Prefix(sig)[m]) || Prefix(sig)[m] == ' '
  {
    var rt := sig.returnType.value;
    var r := rt + " ";
    var mod := if sig.accessModifier.Some? then sig.accessModifier.value + " " else "";
    assert Prefix(sig) == mod + r;
    assert forall m :: 0 <= m < |r| ==> IsWordChar(r[m]) || r[m] == ' ' by {
      forall m | 0 <= m < |r| ensures IsWordChar(r[m]) || r[m] == ' ' {
        if m < |rt| { assert r[m] == rt[m]; }
      }
    }
    if sig.accessModifier.Some? {
      var w := sig.accessModifier.value;
      forall m | 0 <= m < |mod| ensures IsWordChar(mod[m]) || mod[m] == ' ' {
        if m < |w| {
          assert mod[m] == w[m];
          KeywordsAreLower(w, m);
        }
      }
    }
  }

  /** The rendered signature has the layout the name and argument-list patterns need,
      with the method name before the '(' and the argument text inside the parentheses. */
  lemma RenderedLayout(sig: MethodSignature)
    requires Renderable(sig)
    ensures var n0 := |Prefix(sig)|;
            var paren := n0 + |sig.name|;
            && Layout(Render(sig), n0, paren)
            && Render(sig)[n0..paren] == sig.name
            && Render(sig)[paren + 1..|Render(sig)| - 1] == ArgumentText(sig.arguments)
  {
    PrefixShape(sig);
    ArgumentTextShape(sig.arguments);
    LayoutOfParts(Prefix(sig), sig.name, ArgumentText(sig.arguments));
  }

  /** A prefix, a letter word, '(', argument characters and ')' put together. */
  lemma LayoutOfParts(p: string, name: string, b: string)
    requires p != [] && p[|p| - 1] == ' '
    requires forall m :: 0 <= m < |p| ==> IsWordChar(p[m]) || p[m] == ' '
    requires name != [] && AllLetters(name)
    requires forall m :: 0 <= m < |b| ==> In(b[m], ArgumentChars)
    ensures var s := p + name + "(" + b + ")";
            var n0 := |p|;
            var paren := n0 + |name|;
            && Layout(s, n0, paren)
            && s[n0..paren] == name
            && s[paren + 1..|s| - 1] == b
  {
    var s := p + name + "(" + b + ")";
    var n0 := |p|;
    var paren := n0 + |name|;
    assert forall m :: 0 <= m < n0 ==> s[m] == p[m];
    assert forall m :: n0 <= m < paren ==> s[m] == name[m - n0];
    assert forall m :: paren < m < |s| - 1 ==> s[m] == b[m - paren - 1];
    assert s[n0..paren] == name;
    assert s[paren + 1..|s| - 1] == b;
  }

  /** A `\w` word at `i`, not followed by a `\w` character, is what `\s*\w+` matches from
      `i`. */
  lemma SpacesThenWordIsWord(s: string, i: nat, t: string)
    requires OccursAt(t, s, i) && t != [] && AllWordChars(t)
    requires i + |t| == |s| || !IsWordChar(s[i + |t|])
    ensures SpacesThenWord(s, i) == Some(i + |t|)
  {
    assert forall m :: i <= m < i + |t| ==> s[m] == t[m - i];
    RunSkip(s, i, i, Spaces);
    RunSkip(s, i, i + |t|, WordChars);
  }

  /** A keyword and a space at the start are what the modifier pattern finds first. */
  lemma ModifierPresent(s: string, w: string)
    requires w in Keywords && OccursAt(w, s, 0) && |w| < |s| && s[|w|] == ' '
    ensures ParseSourceString(AccessModifier, s) == Some(w)
  {
    KeywordThenSpace(s, w);
    forall m | 0 <= m < |w| ensures IsLower(s[m]) {
      assert s[m] == s[0..|w|][m];
      KeywordsAreLower(w, m);
    }
    RunSkip(s, 0, |w|, Lowers);
    FirstHit(AccessModifier, s, 0, |w|);
  }

  /** Without a keyword anywhere, the modifier pattern finds nothing. */
  lemma ModifierAbsent(s: string)
    requires NoKeyword(s)
    ensures ParseSourceString(AccessModifier, s) == None
  {
    assert forall k :: 0 <= k <= |s| ==> MatchAt(AccessModifier, s, k).None?;
  }

  /** A keyword in x + [c] + y, where `c` is not a lowercase letter, lies inside `x` or
      inside `y`: keywords are lowercase. */
  lemma KeywordAround(x: string, c: char, y: string, k: nat)
    requires KeywordAt(x + [c] + y, k) && !IsLower(c)
    ensures KeywordAt(x, k) || (k > |x| && KeywordAt(y, k - |x| - 1))
  {
    var s := x + [c] + y;
    var w := KeywordIsLower(s, k);
    assert s[|x|] == c;
    LowerRunAvoids(s, k, |w|, |x|);
    if k + |w| <= |x| {
      assert s[k..k + |w|] == x[k..k + |w|];
    } else if k > |x| {
      assert s[k..k + |w|] == y[k - |x| - 1..k - |x| - 1 + |w|];
    }
  }

  /** A run of lowercase letters does not reach over a character that is not one. */
  lemma LowerRunAvoids(s: string, k: nat, n: nat, x: nat)
    requires k + n <= |s| && x < |s| && !IsLower(s[x])
    requires forall m :: k <= m < k + n ==> IsLower(s[m])
    ensures x < k || k + n <= x
  {
  }

  /** Joining keyword-free strings with a character that is not a lowercase letter
      gives a keyword-free string. */
  lemma NoKeywordAround(x: string, c: char, y: string)
    requires NoKeyword(x) && NoKeyword(y) && !IsLower(c)
    ensures NoKeyword(x + [c] + y)
  {
    forall k: nat ensures !KeywordAt(x + [c] + y, k) {
      if KeywordAt(x + [c] + y, k) {
        KeywordAround(x, c, y, k);
      }
    }
  }

  lemma {:induction false} NoKeywordJoin(ps: seq<string>)
    requires forall k :: 0 <= k < |ps| ==> NoKeyword(ps[k])
    ensures NoKeyword(JoinCommaSpace(ps))
  {
    if |ps| > 1 {
      var rest := JoinCommaSpace(ps[1..]);
      NoKeywordJoin(ps[1..]);
      NoKeywordAround([], ' ', rest);
      NoKeywordAround(ps[0], ',', [] + [' '] + rest);
      assert JoinCommaSpace(ps) == ps[0] + [','] + ([] + [' '] + rest);
    }
  }

  /** Without a modifier, a renderable signature renders to text without a keyword. */
  lemma RenderedHasNoKeyword(sig: MethodSignature)
    requires Renderable(sig) && sig.accessModifier.None?
    ensures NoKeyword(Render(sig))
  {
    var args := sig.arguments;
    var ps := RenderArguments(args);
    forall k | 0 <= k < |ps| ensures NoKeyword(ps[k]) {
      NoKeywordAround(args[k].argType, ' ', args[k].name);
      assert ps[k] == args[k].argType + [' '] + args[k].name;
    }
    NoKeywordJoin(ps);
    var b := ArgumentText(args);
    NoKeywordAround(b, ')', []);
    NoKeywordAround(sig.name, '(', b + [')'] + []);
    NoKeywordAround(sig.returnType.value, ' ', sig.name + ['('] + (b + [')'] + []));
    assert Render(sig) == sig.returnType.value + [' '] + (sig.name + ['('] + (b + [')'] + []));
  }

  /** The modifier pattern reads back the rendered modifier, or nothing without one. */
  lemma RenderedModifier(sig: MethodSignature)
    requires Renderable(sig)
    ensures ParseSourceString(AccessModifier, Render(sig)) == sig.accessModifier
  {
    var s := Render(sig);
    if sig.accessModifier.Some? {
      var w := sig.accessModifier.value;
      assert s == w + " " + (sig.returnType.value + " " + sig.name + "(" + ArgumentText(sig.arguments) + ")");
      assert s[0..|w|] == w;
      ModifierPresent(s, w);
    } else {
      RenderedHasNoKeyword(sig);
      ModifierAbsent(s);
    }
  }

  /** The return-type pattern reads back the rendered return type. */
  lemma RenderedReturnType(sig: MethodSignature)
    requires Renderable(sig)
    ensures ParseSourceString(ReturnType, Render(sig)) == sig.returnType
  {
    var rt := sig.returnType.value;
    var rest := " " + sig.name + "(" + ArgumentText(sig.arguments) + ")";
    if sig.accessModifier.Some? {
      var w := sig.accessModifier.value;
      assert Render(sig) == w + " " + rt + rest;
      ReturnTypeAfterKeyword(w, rt, rest);
    } else {
      RenderedHasNoKeyword(sig);
      assert Render(sig) == rt + rest;
      ReturnTypeFirst(rt, rest);
    }
  }

  /** After a keyword and a space, the return-type pattern reads the `\w` word there. */
  lemma ReturnTypeAfterKeyword(w: string, rt: string, rest: string)
    requires w in Keywords && rt != [] && AllWordChars(rt) && rest != [] && rest[0] == ' '
    ensures ParseSourceString(ReturnType, w + " " + rt + rest) == Some(rt)
  {
    var s := w + " " + rt + rest;
    var i := |w| + 1;
    WordAfterKeyword(w, rt, rest);
    SpacesThenWordIsWord(s, i, rt);
    ReturnTypeSkipsModifier(s, w);
  }

  /** The pieces of "W RT" followed by a space. */
  lemma WordAfterKeyword(w: string, rt: string, rest: string)
    requires rest != [] && rest[0] == ' '
    ensures var s := w + " " + rt + rest;
            var i := |w| + 1;
            && |w| < |s| && s[0..|w|] == w && s[|w|] == ' '
            && i + |rt| < |s| && s[i..i + |rt|] == rt && s[i + |rt|] == ' '
  {
    var s := w + " " + rt + rest;
    var i := |w| + 1;
    assert s[i + |rt|] == rest[0];
  }

  /** Without a keyword at the start, the return-type pattern reads the `\w` word there. */
  lemma ReturnTypeFirst(rt: string, rest: string)
    requires rt != [] && AllWordChars(rt) && rest != [] && rest[0] == ' '
    requires NoKeyword(rt + rest)
    ensures ParseSourceString(ReturnType, rt + rest) == Some(rt)
  {
    var s := rt + rest;
    assert s[0..|rt|] == rt && s[|rt|] == ' ';
    assert !KeywordAt(s, 0);
    SpacesThenWordIsWord(s, 0, rt);
    ReturnTypeFromStart(s);
  }

  /** Parse assembles the signature from what each pattern reads. */
  lemma ParseFromFields(s: string, sig: MethodSignature)
    requires ParseSourceString(MethodName, s).Some?
    requires Trim(ParseSourceString(MethodName, s).value) == sig.name
    requires ParseSourceString(ArgumentList, s).Some?
    requires ParseArguments(Fragments(ParseSourceString(ArgumentList, s).value)) == Success(sig.arguments)
    requires ParseSourceString(AccessModifier, s) == sig.accessModifier
    requires ParseSourceString(ReturnType, s) == sig.returnType
    ensures Parse(s) == Success(sig)
  {
  }

  /** The name pattern reads back the method name. */
  lemma RenderedName(sig: MethodSignature)
    requires Renderable(sig)
    ensures ParseSourceString(MethodName, Render(sig)) == Some(sig.name)
  {
    var n0 := |Prefix(sig)|;
    RenderedLayout(sig);
    NameOfLayout(Render(sig), n0, n0 + |sig.name|, sig.name);
  }

  /** The argument-list pattern reads back the argument text. */
  lemma RenderedArgumentText(sig: MethodSignature)
    requires Renderable(sig)
    ensures ParseSourceString(ArgumentList, Render(sig)) == Some(ArgumentText(sig.arguments))
  {
    var n0 := |Prefix(sig)|;
    RenderedLayout(sig);
    ArgumentTextOfLayout(Render(sig), n0, n0 + |sig.name|, ArgumentText(sig.arguments));
  }

  /** parseFunction reads every renderable signature back: the documented format and the
      patterns agree. */
  lemma RoundTrip(sig: MethodSignature)
    requires Renderable(sig)
    ensures Parse(Render(sig)) == Success(sig)
  {
    RenderedName(sig);
    TrimIdentity(sig.name);
    RenderedArgumentText(sig);
    FragmentsOfArgumentText(sig.arguments);
    ParseRenderedArguments(sig.arguments);
    RenderedModifier(sig);
    RenderedReturnType(sig);
    ParseFromFields(Render(sig), sig);
  }

  // ---------------------------------------------------------------------------
  // The examples in the documentation of parseFunction

  /** Every keyword begins with 'p'. */
  lemma KeywordStartsWithP(s: string, k: nat)
    requires KeywordAt(s, k)
    ensures k < |s| && s[k] == 'p'
  {
    var w := KeywordIsLower(s, k);
    assert s[k] == s[k..k + |w|][0];
  }

  /** A string without the letter 'p' holds no keyword. */
  lemma NoKeywordWithoutP(w: string)
    requires 'p' !in w
    ensures NoKeyword(w)
  {
    forall k: nat ensures !KeywordAt(w, k) {
      if KeywordAt(w, k) {
        KeywordStartsWithP(w, k);
      }
    }
  }

  /** The first example is the rendering of its signature. */
  lemma LogRendered(sig: MethodSignature)
    requires sig == MethodSignature(Some("private"), Some("void"), "log", [Argument("String", "value")])
    ensures Render(sig) == "private void log(String value)"
  {
    assert ArgumentText(sig.arguments) == "String value";
    assert Prefix(sig) == "private " + "void ";
    LogLiteral();
  }

  lemma LogLiteral()
    ensures "private " + "void " + "log" + "(" + "String value" + ")" == "private void log(String value)"
  {
    assert "private " + "void " + "log" + "(" + "String value" == "private void log(String value";
  }

  lemma LogExample()
    ensures Parse("private void log(String value)")
            == Success(MethodSignature(Some("private"), Some("void"), "log", [Argument("String", "value")]))
  {
    var sig := MethodSignature(Some("private"), Some("void"), "log", [Argument("String", "value")]);
    LogRendered(sig);
    RoundTrip(sig);
  }

  lemma JoinFour(a: string, b: string, c: string, d: string)
    ensures JoinCommaSpace([a, b, c, d]) == a + ", " + (b + ", " + (c + ", " + d))
  {
    assert [c, d][1..] == [d];
    assert JoinCommaSpace([c, d]) == c + ", " + d;
    assert [b, c, d][1..] == [c, d];
    assert JoinCommaSpace([b, c, d]) == b + ", " + (c + ", " + d);
    assert [a, b, c, d][1..] == [b, c, d];
  }

  /** Regrouping a rendered signature with four arguments from left to right. */
  lemma RegroupFour(p: string, n: string, a: string, b: string, c: string, d: string)
    ensures p + n + "(" + (a + ", " + (b + ", " + (c + ", " + d))) + ")"
            == p + n + "(" + a + ", " + b + ", " + c + ", " + d + ")"
  {
  }

  lemma DistortLiteral()
    ensures "Vector3 " + "distort" + "(" + "int x" + ", " + "int y" + ", " + "int z" + ", " + "float magnitude" + ")"
            == "Vector3 distort(int x, int y, int z, float magnitude)"
  {
    assert "Vector3 " + "distort" + "(" + "int x" == "Vector3 distort(int x";
    assert "Vector3 distort(int x" + ", " + "int y" == "Vector3 distort(int x, int y";
    assert "Vector3 distort(int x, int y" + ", " + "int z" == "Vector3 distort(int x, int y, int z";
    assert "Vector3 distort(int x, int y, int z" + ", " + "float magnitude" + ")"
           == "Vector3 distort(int x, int y, int z, float magnitude)";
  }

  /** The second example is the rendering of its signature. */
  lemma DistortRendered(sig: MethodSignature)
    requires sig == MethodSignature(None, Some("Vector3"), "distort",
                      [Argument("int", "x"), Argument("int", "y"), Argument("int", "z"), Argument("float", "magnitude")])
    ensures Render(sig) == "Vector3 distort(int x, int y, int z, float magnitude)"
  {
    var ps := RenderArguments(sig.arguments);
    assert ps == ["int x", "int y", "int z", "float magnitude"] by {
      assert |ps| == 4 && ps[0] == "int x" && ps[1] == "int y" && ps[2] == "int z";
      assert ps[3] == "float magnitude";
    }
    JoinFour("int x", "int y", "int z", "float magnitude");
    assert Prefix(sig) == "Vector3 ";
    RegroupFour("Vector3 ", "distort", "int x", "int y", "int z", "float magnitude");
    DistortLiteral();
  }

  /** The arguments of the second example are words without a keyword. */
  lemma DistortArgumentWords(args: seq<Argument>)
    requires args == [Argument("int", "x"), Argument("int", "y"), Argument("int", "z"), Argument("float", "magnitude")]
    ensures forall k :: 0 <= k < |args| ==> IsWord(args[k].argType) && IsWord(args[k].name)
    ensures forall k :: 0 <= k < |args| ==> NoKeyword(args[k].argType) && NoKeyword(args[k].name)
  {
    var words := ["int", "x", "y", "z", "float", "magnitude"];
    forall m | 0 <= m < |words| ensures IsWord(words[m]) && NoKeyword(words[m]) {
      NoKeywordWithoutP(words[m]);
    }
    forall k | 0 <= k < |args|
      ensures IsWord(args[k].argType) && IsWord(args[k].name)
      ensures NoKeyword(args[k].argType) && NoKeyword(args[k].name)
    {
      assert args[k].argType in words && args[k].name in words;
    }
  }

  /** The signature of the second example has no keyword in it. */
  lemma DistortRenderable(sig: MethodSignature)
    requires sig == MethodSignature(None, Some("Vector3"), "distort",
                      [Argument("int", "x"), Argument("int", "y"), Argument("int", "z"), Argument("float", "magnitude")])
    ensures Renderable(sig)
  {
    NoKeywordWithoutP("Vector3");
    NoKeywordWithoutP("distort");
    DistortArgumentWords(sig.arguments);
  }

  lemma DistortExample()
    ensures Parse("Vector3 distort(int x, int y, int z, float magnitude)")
            == Success(MethodSignature(None, Some("Vector3"), "distort",
                 [Argument("int", "x"), Argument("int", "y"), Argument("int", "z"), Argument("float", "magnitude")]))
  {
    var args := [Argument("int", "x"), Argument("int", "y"), Argument("int", "z"), Argument("float", "magnitude")];
    var sig := MethodSignature(None, Some("Vector3"), "distort", args);
    DistortRenderable(sig);
    DistortRendered(sig);
    RoundTrip(sig);
  }

  /** The third example is the rendering of its signature. */
  lemma CurrentDateTimeRendered(sig: MethodSignature)
    requires sig == MethodSignature(Some("public"), Some("DateTime"), "getCurrentDateTime", [])
    ensures Render(sig) == "public DateTime getCurrentDateTime()"
  {
    assert ArgumentText([]) == [];
    assert Prefix(sig) == "public " + "DateTime ";
    CurrentDateTimeLiteral();
  }

  lemma CurrentDateTimeLiteral()
    ensures "public " + "DateTime " + "getCurrentDateTime" + "(" + [] + ")" == "public DateTime getCurrentDateTime()"
  {
    assert "getCurrentDateTime" == "get" + "Current" + "DateTime";
    assert "public " + "DateTime " + "get" + "Current" + "DateTime" == "public DateTime getCurrentDateTime";
  }

  lemma CurrentDateTimeExample()
    ensures Parse("public DateTime getCurrentDateTime()")
            == Success(MethodSignature(Some("public"), Some("DateTime"), "getCurrentDateTime", []))
  {
    var sig := MethodSignature(Some("public"), Some("DateTime"), "getCurrentDateTime", []);
    assert Renderable(sig) by {
      assert "public" in Keywords;
      assert AllWordChars("DateTime") && IsWord("getCurrentDateTime");
    }
    CurrentDateTimeRendered(sig);
    RoundTrip(sig);
  }
}
