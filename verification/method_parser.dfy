/** MethodParser.parseFunction: five first-match scans over a Java-like method signature,
    the argument text split on ", ", and each fragment scanned for its type and its name.
    `Parse` is the specification; `ParseFunction` is the loop of the Java method. */
module MethodParser {
  import opened Wrappers
  import opened JavaText
  import opened Patterns

  /** MethodSignature.Argument */
  datatype Argument = Argument(argType: string, name: string)

  /** MethodSignature, with the two fields set through setters being optional. */
  datatype MethodSignature = MethodSignature(
    accessModifier: Option<string>,
    returnType: Option<string>,
    name: string,
    arguments: seq<Argument>)

  /** The four places where Objects.requireNonNull throws. */
  datatype ParseError =
    | MissingMethodName
    | MissingArgumentList
    | MissingArgumentType(fragment: string)
    | MissingArgumentName(fragment: string)

  // ---------------------------------------------------------------------------
  // One argument fragment

  /** `t` is the letter run at index `j` of `f`, with only spaces in front of it. */
  ghost predicate LeadingRunAt(f: string, t: string, j: nat) {
    && j + |t| <= |f|
    && (forall m :: 0 <= m < j ==> f[m] == ' ')
    && f[j..j + |t|] == t
    && (j + |t| == |f| || !IsLetter(f[j + |t|]))
  }

  /** `t` is the non-empty letter run that `f` starts with, after leading spaces. */
  ghost predicate IsLeadingRun(f: string, t: string) {
    t != [] && AllLetters(t) && exists j: nat :: LeadingRunAt(f, t, j)
  }

  /** `t` is a whole letter run of `f` at index `i`, and only `\s` characters and `$`
      follow it. */
  ghost predicate TrailingRunAt(f: string, t: string, i: nat) {
    && i + |t| <= |f|
    && f[i..i + |t|] == t
    && (i == 0 || !IsLetter(f[i - 1]))
    && DollarAt(f, RunEnd(f, i + |t|, Spaces))
  }

  /** `t` is the non-empty letter run that `f` ends with, up to trailing `\s`. */
  ghost predicate IsTrailingRun(f: string, t: string) {
    t != [] && AllLetters(t) && exists i: nat :: TrailingRunAt(f, t, i)
  }

  /** The first match of the argument-type pattern: blanks up to `j`, then the letter
      run up to `e`. */
  lemma ArgumentTypeMatch(f: string) returns (j: nat, e: nat)
    requires ParseSourceString(ArgumentType, f).Some?
    ensures j < e <= |f| && ParseSourceString(ArgumentType, f).value == f[..e]
    ensures forall m :: 0 <= m < j ==> f[m] == ' '
    ensures forall m :: j <= m < e ==> IsLetter(f[m])
    ensures e == |f| || !IsLetter(f[e])
  {
    var m := FirstMatchFrom(ArgumentType, f, 0).value;
    assert m.start == 0;
    j, e := RunEnd(f, 0, Blanks), m.end;
  }

  /** The trimmed first match of the argument-type pattern is the leading letter run. */
  lemma ArgumentTypeIsLeadingRun(f: string)
    requires ParseSourceString(ArgumentType, f).Some?
    ensures IsLeadingRun(f, Trim(ParseSourceString(ArgumentType, f).value))
  {
    var j, e := ArgumentTypeMatch(f);
    TrimSliceBlanksThenLetters(f, j, e);
    LeadingRunOf(f, j, e);
  }

  /** Blanks up to `j` and then a maximal letter run up to `e` make f[j..e] the leading run. */
  lemma LeadingRunOf(f: string, j: nat, e: nat)
    requires j < e <= |f|
    requires forall m :: 0 <= m < j ==> f[m] == ' '
    requires forall m :: j <= m < e ==> IsLetter(f[m])
    requires e == |f| || !IsLetter(f[e])
    ensures IsLeadingRun(f, f[j..e])
  {
    assert LeadingRunAt(f, f[j..e], j);
  }

  /** Scanning the name pattern one letter earlier gives the same end. */
  lemma NameScanStartsAtRun(f: string, i: nat)
    requires 0 < i < |f| && IsLetter(f[i - 1]) && IsLetter(f[i])
    ensures MatchAt(ArgumentName, f, i - 1) == MatchAt(ArgumentName, f, i)
  {
    assert RunEnd(f, i - 1, Letters) == RunEnd(f, i, Letters);
  }

  /** The leftmost start of the name pattern is the start of a letter run. */
  lemma NameScanStart(f: string, i: nat)
    requires i <= |f| && MatchAt(ArgumentName, f, i).Some?
    requires forall k :: 0 <= k < i ==> MatchAt(ArgumentName, f, k).None?
    ensures i == 0 || !IsLetter(f[i - 1])
  {
    forall k | 0 < k < |f| && IsLetter(f[k - 1]) && IsLetter(f[k])
      ensures MatchAt(ArgumentName, f, k - 1) == MatchAt(ArgumentName, f, k)
    {
      NameScanStartsAtRun(f, k);
    }
  }

  /** The first match of the argument-name pattern: the letter run from `i` to `j`,
      which starts a run, then `\\s` up to `e`, where `$` holds. */
  lemma ArgumentNameMatch(f: string) returns (i: nat, j: nat, e: nat)
    requires ParseSourceString(ArgumentName, f).Some?
    ensures i < j <= e <= |f| && ParseSourceString(ArgumentName, f).value == f[i..e]
    ensures i == 0 || !IsLetter(f[i - 1])
    ensures forall m :: i <= m < j ==> IsLetter(f[m])
    ensures forall m :: j <= m < e ==> IsSpace(f[m])
    ensures RunEnd(f, j, Spaces) == e && DollarAt(f, e)
  {
    var m := FirstMatchFrom(ArgumentName, f, 0).value;
    i, e := m.start, m.end;
    j := RunEnd(f, i, Letters);
    NameScanStart(f, i);
  }

  /** The trimmed first match of the argument-name pattern is the trailing letter run. */
  lemma ArgumentNameIsTrailingRun(f: string)
    requires ParseSourceString(ArgumentName, f).Some?
    ensures IsTrailingRun(f, Trim(ParseSourceString(ArgumentName, f).value))
  {
    var i, j, e := ArgumentNameMatch(f);
    TrimSliceLettersThenSpaces(f, i, j, e);
    TrailingRunOf(f, i, j, e);
  }

  /** A letter run from `i` to `j` that starts a run, followed by `\\s` up to `e` where
      `$` holds, makes f[i..j] the trailing run. */
  lemma TrailingRunOf(f: string, i: nat, j: nat, e: nat)
    requires i < j <= e <= |f|
    requires i == 0 || !IsLetter(f[i - 1])
    requires forall m :: i <= m < j ==> IsLetter(f[m])
    requires RunEnd(f, j, Spaces) == e && DollarAt(f, e)
    ensures IsTrailingRun(f, f[i..j])
  {
    assert TrailingRunAt(f, f[i..j], i);
  }

  /** The loop body of parseFunction for one fragment: its type and its name, each
      trimmed, or the requireNonNull failure for whichever is missing first. */
  function ParseArgument(f: string): (r: Result<Argument, ParseError>)
    ensures r.Failure? ==> r.error == MissingArgumentType(f) || r.error == MissingArgumentName(f)
  {
    match ParseSourceString(ArgumentType, f)
    case None => Failure(MissingArgumentType(f))
    case Some(rawType) =>
      match ParseSourceString(ArgumentName, f)
      case None => Failure(MissingArgumentName(f))
      case Some(rawName) => Success(Argument(Trim(rawType), Trim(rawName)))
  }

  /** A fragment fails on its type exactly when the type pattern matches nowhere in it,
      and on its name exactly when the type is there but the name pattern matches
      nowhere; otherwise its type is the leading and its name the trailing letter run. */
  lemma ArgumentFields(f: string)
    ensures ParseArgument(f) == Failure(MissingArgumentType(f)) <==> NoMatch(ArgumentType, f)
    ensures ParseArgument(f) == Failure(MissingArgumentName(f)) <==> !NoMatch(ArgumentType, f) && NoMatch(ArgumentName, f)
    ensures ParseArgument(f).Success? ==>
              IsLeadingRun(f, ParseArgument(f).value.argType) && IsTrailingRun(f, ParseArgument(f).value.name)
  {
    ParseSourceStringIsFind(ArgumentType, f);
    ParseSourceStringIsFind(ArgumentName, f);
    if ParseArgument(f).Success? {
      ArgumentTypeIsLeadingRun(f);
      ArgumentNameIsTrailingRun(f);
    }
  }

  /** A fragment of one word gives that word as both type and name. */
  lemma OneWordFragment(w: string)
    requires w != [] && AllLetters(w)
    ensures ParseArgument(w) == Success(Argument(w, w))
  {
    assert MatchAt(ArgumentType, w, 0) == Some(|w|);
    FirstHit(ArgumentType, w, 0, |w|);
    assert MatchAt(ArgumentName, w, 0) == Some(|w|);
    FirstHit(ArgumentName, w, 0, |w|);
    assert w[0..|w|] == w;
    TrimIdentity(w);
  }

  /** In "T N" the type pattern first matches T. */
  lemma TypeOfTwoWords(t: string, n: string)
    requires t != [] && AllLetters(t) && n != [] && AllLetters(n)
    ensures ParseSourceString(ArgumentType, t + " " + n) == Some(t)
  {
    var f := t + " " + n;
    assert f[|t|] == ' ';
    assert forall m :: 0 <= m < |t| ==> f[m] == t[m];
    RunSkip(f, 0, |t|, Letters);
    assert MatchAt(ArgumentType, f, 0) == Some(|t|);
    FirstHit(ArgumentType, f, 0, |t|);
    assert f[0..|t|] == t;
  }

  /** In "T N" the name pattern first matches N: every start inside T runs into the
      space and then into N, which is not the end of the input. */
  lemma NameOfTwoWords(t: string, n: string)
    requires t != [] && AllLetters(t) && n != [] && AllLetters(n)
    ensures ParseSourceString(ArgumentName, t + " " + n) == Some(n)
  {
    var f := t + " " + n;
    var i := |t| + 1;
    TwoWordsLayout(t, n);
    RunSkip(f, |t|, i, Spaces);
    forall k | 0 <= k < i ensures MatchAt(ArgumentName, f, k).None? {
      if k < |t| {
        NameScanBlocked(f, k, |t|, i);
      }
    }
    NameScanToEnd(f, i);
    FirstHit(ArgumentName, f, i, |f|);
  }

  /** The characters of "T N". */
  lemma TwoWordsLayout(t: string, n: string)
    requires t != [] && AllLetters(t) && n != [] && AllLetters(n)
    ensures var f := t + " " + n;
      && |f| == |t| + 1 + |n|
      && (forall m :: 0 <= m < |t| ==> IsLetter(f[m]))
      && f[|t|] == ' '
      && (forall m :: |t| < m < |f| ==> IsLetter(f[m]))
      && f[..|t|] == t && f[0..|t|] == t && f[|t| + 1..|f|] == n
  {
    var f := t + " " + n;
    assert forall m :: 0 <= m < |t| ==> f[m] == t[m];
    assert forall m :: |t| < m < |f| ==> f[m] == n[m - |t| - 1];
  }

  /** The name pattern started inside a letter run that ends before `\s` characters and
      then another letter finds no match: `$` does not hold in front of a letter. */
  lemma NameScanBlocked(f: string, k: nat, j: nat, e: nat)
    requires k < j <= e < |f|
    requires forall m :: k <= m < j ==> IsLetter(f[m])
    requires !IsLetter(f[j]) && RunEnd(f, j, Spaces) == e && IsLetter(f[e])
    ensures MatchAt(ArgumentName, f, k).None?
  {
    RunSkip(f, k, j, Letters);
  }

  /** The name pattern started at a letter run that reaches the end matches up to the end. */
  lemma NameScanToEnd(f: string, i: nat)
    requires i < |f| && forall m :: i <= m < |f| ==> IsLetter(f[m])
    ensures MatchAt(ArgumentName, f, i) == Some(|f|)
  {
    RunSkip(f, i, |f|, Letters);
  }

  /** A fragment "T N" of two letter words gives type T and name N. */
  lemma TwoWordFragment(t: string, n: string)
    requires t != [] && AllLetters(t) && n != [] && AllLetters(n)
    ensures ParseArgument(t + " " + n) == Success(Argument(t, n))
  {
    TypeOfTwoWords(t, n);
    NameOfTwoWords(t, n);
    WordIsTrimmed(t);
    WordIsTrimmed(n);
    ParseArgumentOf(t + " " + n, t, n);
  }

  /** A word of letters has nothing to trim. */
  lemma WordIsTrimmed(w: string)
    requires w != [] && AllLetters(w)
    ensures Trim(w) == w
  {
    TrimIdentity(w);
  }

  /** A fragment whose type and name scans find untrimmable words parses to them. */
  lemma ParseArgumentOf(f: string, t: string, n: string)
    requires ParseSourceString(ArgumentType, f) == Some(t) && Trim(t) == t
    requires ParseSourceString(ArgumentName, f) == Some(n) && Trim(n) == n
    ensures ParseArgument(f) == Success(Argument(t, n))
  {
  }

  // ---------------------------------------------------------------------------
  // The argument list

  /** The fragments of the argument text: none when its trim is empty, otherwise the
      trimmed text split on ", ". */
  function Fragments(argumentText: string): (r: seq<string>)
    ensures r == [] <==> Trim(argumentText) == []
    ensures r != [] ==> JoinCommaSpace(r) == Trim(argumentText)
    ensures forall k :: 0 <= k < |r| ==> NoCommaSpace(r[k])
  {
    var t := Trim(argumentText);
    if t == [] then [] else
    JoinOfSplit(t);
    SplitOnCommaSpace(t)
  }

  /** Fragment `k` is the first one that `parse` fails on. */
  ghost predicate FirstFailureAt(fragments: seq<string>, parse: string -> Result<Argument, ParseError>, k: nat) {
    && k < |fragments|
    && parse(fragments[k]).Failure?
    && forall k' :: 0 <= k' < k ==> parse(fragments[k']).Success?
  }

  /** The for loop of parseFunction as a specification: every fragment parsed in order,
      or the failure of the first fragment that does not parse. */
  function ParseEach(fragments: seq<string>, parse: string -> Result<Argument, ParseError>): (r: Result<seq<Argument>, ParseError>)
    ensures r.Success? <==> forall k :: 0 <= k < |fragments| ==> parse(fragments[k]).Success?
    ensures r.Success? ==> |r.value| == |fragments|
    ensures r.Success? ==> forall k :: 0 <= k < |fragments| ==> parse(fragments[k]) == Success(r.value[k])
    ensures r.Failure? ==> exists k: nat :: FirstFailureAt(fragments, parse, k) && parse(fragments[k]) == Failure(r.error)
  {
    if fragments == [] then Success([])
    else
      match parse(fragments[0])
      case Failure(e) =>
        assert FirstFailureAt(fragments, parse, 0);
        Failure(e)
      case Success(a) =>
        match ParseEach(fragments[1..], parse)
        case Failure(e) =>
          assert exists k: nat :: FirstFailureAt(fragments, parse, k) && parse(fragments[k]) == Failure(e) by {
            var k: nat :| FirstFailureAt(fragments[1..], parse, k) && parse(fragments[1..][k]) == Failure(e);
            assert FirstFailureAt(fragments, parse, k + 1);
          }
          Failure(e)
        case Success(rest) =>
          assert forall k :: 0 < k < |fragments| ==> fragments[k] == fragments[1..][k - 1];
          Success([a] + rest)
  }

  /** The argument list parseFunction builds from the fragments. */
  function ParseArguments(fragments: seq<string>): Result<seq<Argument>, ParseError>
  {
    ParseEach(fragments, ParseArgument)
  }

  /** One more fragment that parses extends the list by its argument. */
  lemma ParseEachExtends(fragments: seq<string>, parse: string -> Result<Argument, ParseError>, k: nat)
    requires k < |fragments| && ParseEach(fragments[..k], parse).Success? && parse(fragments[k]).Success?
    ensures ParseEach(fragments[..k + 1], parse) == Success(ParseEach(fragments[..k], parse).value + [parse(fragments[k]).value])
  {
    var l := ParseEach(fragments[..k], parse).value;
    var a := parse(fragments[k]).value;
    forall m | 0 <= m < k + 1 ensures parse(fragments[..k + 1][m]) == Success((l + [a])[m]) {
      if m < k {
        assert fragments[..k + 1][m] == fragments[..k][m];
      }
    }
    ParseEachAll(fragments[..k + 1], parse, l + [a]);
  }

  /** When every fragment parses, the result lists the arguments in fragment order. */
  lemma ParseEachAll(fragments: seq<string>, parse: string -> Result<Argument, ParseError>, args: seq<Argument>)
    requires |fragments| == |args|
    requires forall k :: 0 <= k < |fragments| ==> parse(fragments[k]) == Success(args[k])
    ensures ParseEach(fragments, parse) == Success(args)
  {
    var r := ParseEach(fragments, parse);
    assert r.Success? && |r.value| == |args|;
    assert forall k :: 0 <= k < |args| ==> r.value[k] == args[k];
    assert r.value == args;
  }

  /** The first fragment that does not parse decides the result. */
  lemma ParseEachStops(fragments: seq<string>, parse: string -> Result<Argument, ParseError>, k: nat)
    requires k < |fragments| && ParseEach(fragments[..k], parse).Success? && parse(fragments[k]).Failure?
    ensures ParseEach(fragments, parse) == Failure(parse(fragments[k]).error)
  {
    assert forall m :: 0 <= m < k ==> fragments[..k][m] == fragments[m];
    assert FirstFailureAt(fragments, parse, k);
  }

  // ---------------------------------------------------------------------------
  // The whole signature

  /** parseFunction: the name, then the argument text (each required), then the
      arguments in order, then the optional modifier and return type. */
  function Parse(s: string): (r: Result<MethodSignature, ParseError>)
  {
    match ParseSourceString(MethodName, s)
    case None => Failure(MissingMethodName)
    case Some(rawName) =>
      match ParseSourceString(ArgumentList, s)
      case None => Failure(MissingArgumentList)
      case Some(argumentText) =>
        match ParseArguments(Fragments(argumentText))
        case Failure(e) => Failure(e)
        case Success(arguments) =>
          Success(MethodSignature(
            ParseSourceString(AccessModifier, s),
            ParseSourceString(ReturnType, s),
            Trim(rawName),
            arguments))
  }

  /** parseFunction fails on the name exactly when the name pattern matches nowhere, on
      the argument text exactly when the name is there and the argument-list pattern
      matches nowhere, and otherwise only on the first fragment that does not parse. */
  lemma ParseFailures(s: string)
    ensures Parse(s) == Failure(MissingMethodName) <==> NoMatch(MethodName, s)
    ensures Parse(s) == Failure(MissingArgumentList) <==> !NoMatch(MethodName, s) && NoMatch(ArgumentList, s)
    ensures Parse(s).Failure? && !NoMatch(MethodName, s) && !NoMatch(ArgumentList, s) ==>
              var fragments := Fragments(ParseSourceString(ArgumentList, s).value);
              exists k: nat :: FirstFailureAt(fragments, ParseArgument, k)
                               && ParseArgument(fragments[k]) == Failure(Parse(s).error)
  {
    ParseSourceStringIsFind(MethodName, s);
    ParseSourceStringIsFind(ArgumentList, s);
    ParseSteps(s);
  }

  /** Which step of parseFunction fails, in terms of the two required matches and the
      loop over the fragments. */
  lemma ParseSteps(s: string)
    ensures Parse(s) == Failure(MissingMethodName) <==> ParseSourceString(MethodName, s).None?
    ensures Parse(s) == Failure(MissingArgumentList) <==>
              ParseSourceString(MethodName, s).Some? && ParseSourceString(ArgumentList, s).None?
    ensures Parse(s).Failure? && ParseSourceString(MethodName, s).Some? && ParseSourceString(ArgumentList, s).Some? ==>
              var fragments := Fragments(ParseSourceString(ArgumentList, s).value);
              exists k: nat :: FirstFailureAt(fragments, ParseArgument, k)
                               && ParseArgument(fragments[k]) == Failure(Parse(s).error)
  {
    var name, text := ParseSourceString(MethodName, s), ParseSourceString(ArgumentList, s);
    if name.Some? && text.Some? {
      var fragments := Fragments(text.value);
      if ParseArguments(fragments).Failure? {
        var k := ArgumentsFailOnFragment(fragments);
      }
    }
  }

  /** The loop over the fragments fails only on a fragment, so only for a missing
      argument type or argument name. */
  lemma ArgumentsFailOnFragment(fragments: seq<string>) returns (k: nat)
    requires ParseArguments(fragments).Failure?
    ensures FirstFailureAt(fragments, ParseArgument, k)
    ensures ParseArgument(fragments[k]) == Failure(ParseArguments(fragments).error)
    ensures ParseArguments(fragments).error.MissingArgumentType? || ParseArguments(fragments).error.MissingArgumentName?
  {
    k :| FirstFailureAt(fragments, ParseArgument, k) && ParseArgument(fragments[k]) == Failure(ParseArguments(fragments).error);
  }


  /** The leftmost-longest match of the name pattern: letters from `i` to `j`, then
      `\\s` up to `e`. */
  lemma MethodNameMatch(s: string) returns (i: nat, j: nat, e: nat)
    requires ParseSourceString(MethodName, s).Some?
    ensures i < j <= e <= |s| && ParseSourceString(MethodName, s).value == s[i..e]
    ensures LeftmostLongest(MethodName, s, i, e)
    ensures forall m :: i <= m < j ==> IsLetter(s[m])
    ensures forall m :: j <= m < e ==> IsSpace(s[m])
  {
    var m := FirstMatchFrom(MethodName, s, 0).value;
    i, e := m.start, m.end;
    j := RunEnd(s, i, Letters);
    FirstMatchIsLeftmostLongest(MethodName, s);
  }

  /** `name` starts the leftmost-longest match s[i..e] of the name pattern and only
      `\\s` follows it in the match. */
  ghost predicate NameAt(s: string, name: string, i: nat, e: nat) {
    && LeftmostLongest(MethodName, s, i, e)
    && i + |name| <= e <= |s|
    && s[i..i + |name|] == name
    && AllIn(s, i + |name|, e, Spaces)
  }

  /** `name` is a non-empty letter run that the name pattern's first match starts with. */
  ghost predicate IsMethodNameOf(s: string, name: string) {
    name != [] && AllLetters(name) && exists i: nat, e: nat :: NameAt(s, name, i, e)
  }

  /** Letters from `i` to `j` and `\\s` up to the end `e` of the first match. */
  lemma NameRunOf(s: string, i: nat, j: nat, e: nat)
    requires i < j <= e <= |s| && LeftmostLongest(MethodName, s, i, e)
    requires forall m :: i <= m < j ==> IsLetter(s[m])
    requires forall m :: j <= m < e ==> IsSpace(s[m])
    ensures IsMethodNameOf(s, s[i..j])
  {
    assert NameAt(s, s[i..j], i, e);
  }

  /** The method name is a non-empty letter run: the leftmost match of the name pattern
      with its trailing whitespace trimmed off. */
  lemma MethodNameField(s: string)
    requires ParseSourceString(MethodName, s).Some?
    ensures IsMethodNameOf(s, Trim(ParseSourceString(MethodName, s).value))
  {
    var i, j, e := MethodNameMatch(s);
    TrimSliceLettersThenSpaces(s, i, j, e);
    NameRunOf(s, i, j, e);
  }

  /** The arguments are the fragments of the argument text, one each and in order, each
      with the leading letter run of its fragment as type and the trailing one as name;
      the argument text is the leftmost span of letters, whitespace and commas between
      parentheses, and it gives no arguments exactly when its trim is empty. */
  lemma ArgumentsField(s: string)
    requires Parse(s).Success?
    ensures var text := ParseSourceString(ArgumentList, s).value;
            exists i: nat, e: nat :: LeftmostLongest(ArgumentList, s, i, e) && i <= e <= |s| && text == s[i..e]
    ensures var fragments := Fragments(ParseSourceString(ArgumentList, s).value);
            var arguments := Parse(s).value.arguments;
            && |arguments| == |fragments|
            && (arguments == [] <==> Trim(ParseSourceString(ArgumentList, s).value) == [])
            && forall k :: 0 <= k < |fragments| ==>
                 IsLeadingRun(fragments[k], arguments[k].argType) && IsTrailingRun(fragments[k], arguments[k].name)
  {
    ParseSourceStringIsFind(ArgumentList, s);
    var fragments := Fragments(ParseSourceString(ArgumentList, s).value);
    forall k | 0 <= k < |fragments|
      ensures IsLeadingRun(fragments[k], Parse(s).value.arguments[k].argType)
      ensures IsTrailingRun(fragments[k], Parse(s).value.arguments[k].name)
    {
      ArgumentFields(fragments[k]);
    }
  }

  /** `m` is the lowercase run at the first index `i` of `s` where a keyword occurs. */
  ghost predicate FirstKeywordRunAt(s: string, m: string, i: nat) {
    && i + |m| <= |s|
    && KeywordAt(s, i)
    && (forall k :: 0 <= k < i ==> !KeywordAt(s, k))
    && s[i..i + |m|] == m
    && (forall x :: 0 <= x < |m| ==> IsLower(m[x]))
    && (i + |m| == |s| || !IsLower(s[i + |m|]))
  }

  /** The access modifier is absent exactly when no keyword occurs anywhere in the
      string; otherwise it is the lowercase run at the first keyword, anywhere in the
      string, and it starts with that keyword. */
  lemma AccessModifierField(s: string)
    ensures ParseSourceString(AccessModifier, s).None? <==> forall k :: 0 <= k <= |s| ==> !KeywordAt(s, k)
    ensures ParseSourceString(AccessModifier, s).Some? ==>
              && KeywordAt(ParseSourceString(AccessModifier, s).value, 0)
              && exists i: nat :: FirstKeywordRunAt(s, ParseSourceString(AccessModifier, s).value, i)
  {
    var r := FirstMatchFrom(AccessModifier, s, 0);
    var last := if r.Some? then r.value.start else |s| + 1;
    forall k | 0 <= k < last && k <= |s| ensures !KeywordAt(s, k) {
      AccessModifierAt(s, k);
    }
    if r.Some? {
      AccessModifierAt(s, r.value.start);
      KeywordRun(s, r.value.start);
    }
  }

  /** The access-modifier scanner at `k`: the lowercase run there when a keyword starts
      at `k`, nothing otherwise. */
  lemma AccessModifierAt(s: string, k: nat)
    requires k <= |s|
    ensures MatchAt(AccessModifier, s, k) == if KeywordAt(s, k) then Some(RunEnd(s, k, Lowers)) else None
  {
  }

  /** The lowercase run at a keyword occurrence starts with the keyword. */
  lemma KeywordRun(s: string, i: nat)
    requires i <= |s| && KeywordAt(s, i) && forall k :: 0 <= k < i ==> !KeywordAt(s, k)
    ensures var m := s[i..RunEnd(s, i, Lowers)]; KeywordAt(m, 0) && FirstKeywordRunAt(s, m, i)
  {
    var e := RunEnd(s, i, Lowers);
    var w := KeywordIsLower(s, i);
    RunIsMaximal(s, i, i + |w|, Lowers);
    var m := s[i..e];
    assert m[0..|w|] == s[i..i + |w|];
    assert OccursAt(w, m, 0);
    assert forall x :: 0 <= x < |m| ==> m[x] == s[i + x];
  }

  /** `t` occurs at `i`, is optional `\s` followed by a `\w` run, and is not followed
      by another word character. */
  ghost predicate SpacedWordAt(s: string, i: nat, t: string) {
    && i + |t| <= |s|
    && s[i..i + |t|] == t
    && (exists j: nat :: SpacesThenWordSplit(t, j))
    && (i + |t| == |s| || !IsWordChar(s[i + |t|]))
  }

  /** t[..j] is `\s` characters and t[j..] a non-empty `\w` run. */
  ghost predicate SpacesThenWordSplit(t: string, j: nat) {
    && j < |t|
    && (forall m :: 0 <= m < j ==> IsSpace(t[m]))
    && (forall m :: j <= m < |t| ==> IsWordChar(t[m]))
  }

  /** The `\s*\w+` text that SpacesThenWord scans from `i`. */
  lemma SpacesThenWordText(s: string, i: nat)
    requires i <= |s| && SpacesThenWord(s, i).Some?
    ensures SpacedWordAt(s, i, s[i..SpacesThenWord(s, i).value])
  {
    var j := RunEnd(s, i, Spaces);
    var t := s[i..SpacesThenWord(s, i).value];
    assert SpacesThenWordSplit(t, j - i);
  }

  /** A keyword and one `\\s` character at the start satisfy both lookarounds. */
  lemma KeywordThenSpace(s: string, w: string)
    requires w in Keywords && OccursAt(w, s, 0) && |w| < |s| && IsSpace(s[|w|])
    ensures KeywordAt(s, 0) && KeywordSpaceBefore(s, |w| + 1)
  {
    if w == "private" {
      assert OccursAt("private", s, 0) && OccursAt("private", s, |w| + 1 - 8);
    } else if w == "public" {
      assert OccursAt("public", s, 0) && OccursAt("public", s, |w| + 1 - 7);
    } else {
      assert OccursAt("protected", s, 0) && OccursAt("protected", s, |w| + 1 - 10);
    }
  }

  /** After a keyword and one `\\s` character at the start, the return-type pattern
      first matches where its lookbehind holds, right after them. */
  lemma ReturnTypeSkipsModifier(s: string, w: string)
    requires w in Keywords && OccursAt(w, s, 0) && |w| < |s| && IsSpace(s[|w|])
    requires SpacesThenWord(s, |w| + 1).Some?
    ensures ParseSourceString(ReturnType, s) == Some(s[|w| + 1..SpacesThenWord(s, |w| + 1).value])
  {
    var i := |w| + 1;
    KeywordThenSpace(s, w);
    var e := SpacesThenWord(s, i).value;
    ReturnTypeAfterLookbehind(s, i);
    forall k | 0 <= k < i ensures MatchAt(ReturnType, s, k).None? {
      ReturnTypeNotInKeyword(s, w, k);
    }
    FirstHit(ReturnType, s, i, e);
  }

  /** Where the lookbehind holds, the return-type scanner reads `\s*\w+`. */
  lemma ReturnTypeAfterLookbehind(s: string, i: nat)
    requires i <= |s| && KeywordSpaceBefore(s, i) && SpacesThenWord(s, i).Some?
    ensures MatchAt(ReturnType, s, i) == SpacesThenWord(s, i)
  {
  }

  /** The return-type scanner finds nothing at or inside a keyword at the start: the
      lookahead fails at the start and the lookbehind needs a `\s` character where
      the keyword has a letter. */
  lemma ReturnTypeNotInKeyword(s: string, w: string, k: nat)
    requires w in Keywords && OccursAt(w, s, 0) && k <= |w|
    ensures MatchAt(ReturnType, s, k).None?
  {
    assert KeywordAt(s, 0);
    if k > 0 {
      assert s[k - 1] == s[0..|w|][k - 1];
      KeywordsAreLower(w, k - 1);
    }
  }

  /** When the string starts with a keyword and one `\\s` character, the return type is
      the `\\s*\\w+` text right after them, not trimmed. */
  lemma ReturnTypeAfterModifier(s: string, w: string)
    requires w in Keywords && OccursAt(w, s, 0) && |w| < |s| && IsSpace(s[|w|])
    requires SpacesThenWord(s, |w| + 1).Some?
    ensures ParseSourceString(ReturnType, s).Some?
    ensures SpacedWordAt(s, |w| + 1, ParseSourceString(ReturnType, s).value)
  {
    ReturnTypeSkipsModifier(s, w);
    SpacesThenWordText(s, |w| + 1);
  }

  /** Without a keyword at the start, the return-type pattern first matches at the start
      when `\\s*\\w+` is there. */
  lemma ReturnTypeFromStart(s: string)
    requires !KeywordAt(s, 0) && SpacesThenWord(s, 0).Some?
    ensures ParseSourceString(ReturnType, s) == Some(s[..SpacesThenWord(s, 0).value])
  {
    var e := SpacesThenWord(s, 0).value;
    assert MatchAt(ReturnType, s, 0) == Some(e);
    FirstHit(ReturnType, s, 0, e);
  }

  /** When no keyword starts the string, the return type is the `\\s*\\w+` text at its
      start, if there is one there. */
  lemma ReturnTypeAtStart(s: string)
    requires !KeywordAt(s, 0) && SpacesThenWord(s, 0).Some?
    ensures ParseSourceString(ReturnType, s).Some?
    ensures SpacedWordAt(s, 0, ParseSourceString(ReturnType, s).value)
  {
    ReturnTypeFromStart(s);
    SpacesThenWordText(s, 0);
  }

  /** parseFunction as the Java code runs it: the argument list is built by appending
      inside a loop over the fragments. */
  method ParseFunction(signature: string) returns (r: Result<MethodSignature, ParseError>)
    ensures r == Parse(signature)
  {
    var argumentList: seq<Argument> := [];
    var rawName := ParseSourceString(MethodName, signature);
    if rawName.None? {
      return Failure(MissingMethodName);
    }
    var methodName := Trim(rawName.value);
    var rawArguments := ParseSourceString(ArgumentList, signature);
    if rawArguments.None? {
      return Failure(MissingArgumentList);
    }
    var arguments := Trim(rawArguments.value);
    ghost var fragments := Fragments(rawArguments.value);
    if arguments != [] {
      var argumentsArray := SplitOnCommaSpace(arguments);
      assert argumentsArray == fragments;
      var k := 0;
      while k < |argumentsArray|
        invariant 0 <= k <= |argumentsArray|
        invariant ParseEach(argumentsArray[..k], ParseArgument) == Success(argumentList)
      {
        var arg := argumentsArray[k];
        var argType := ParseSourceString(ArgumentType, arg);
        if argType.None? {
          ParseEachStops(argumentsArray, ParseArgument, k);
          return Failure(MissingArgumentType(arg));
        }
        var name := ParseSourceString(ArgumentName, arg);
        if name.None? {
          ParseEachStops(argumentsArray, ParseArgument, k);
          return Failure(MissingArgumentName(arg));
        }
        ParseEachExtends(argumentsArray, ParseArgument, k);
        argumentList := argumentList + [Argument(Trim(argType.value), Trim(name.value))];
        k := k + 1;
      }
      assert argumentsArray[..k] == argumentsArray;
    }
    assert ParseArguments(fragments) == Success(argumentList);
    var methodSignature := MethodSignature(None, None, methodName, argumentList);
    methodSignature := methodSignature.(accessModifier := ParseSourceString(AccessModifier, signature));
    methodSignature := methodSignature.(returnType := ParseSourceString(ReturnType, signature));
    return Success(methodSignature);
  }
}
