/** The pieces of java.lang.String and java.util.regex behaviour that both utilities rely on:
    the ASCII character classes of the patterns, String.trim, and String.split on the
    literal separator comma-space. */
module JavaText {

  /** `[a-zA-Z]` */
  predicate IsLetter(c: char) { 'a' <= c <= 'z' || 'A' <= c <= 'Z' }

  /** `[a-z]` */
  predicate IsLower(c: char) { 'a' <= c <= 'z' }

  predicate IsDigit(c: char) { '0' <= c <= '9' }

  /** `\w` without the UNICODE_CHARACTER_CLASS flag: `[a-zA-Z_0-9]` */
  predicate IsWordChar(c: char) { IsLetter(c) || IsDigit(c) || c == '_' }

  /** `\s` without the UNICODE_CHARACTER_CLASS flag: space, tab, line feed,
      vertical tab, form feed, carriage return */
  predicate IsSpace(c: char) {
    c == ' ' || c == '\t' || c == '\n' || c == '\U{B}' || c == '\U{C}' || c == '\r'
  }

  /** The line terminators that `$` may stand in front of and that `\s` does not
      match (the others, line feed and carriage return, are in `\s`). */
  predicate IsOtherLineTerminator(c: char) {
    c == '\U{85}' || c == '\U{2028}' || c == '\U{2029}'
  }

  /** String.trim removes every leading and trailing code point up to U+0020. */
  predicate IsTrimmable(c: char) { c <= ' ' }

  predicate AllLetters(s: string) { forall i :: 0 <= i < |s| ==> IsLetter(s[i]) }

  predicate AllWordChars(s: string) { forall i :: 0 <= i < |s| ==> IsWordChar(s[i]) }

  /** `w` occurs in `s` starting at index `i`. */
  predicate OccursAt(w: string, s: string, i: nat) {
    i + |w| <= |s| && s[i..i + |w|] == w
  }

  // ---------------------------------------------------------------------------
  // String.trim

  function TrimStart(s: string): (r: string)
    ensures |r| <= |s| && r == s[|s| - |r|..]
    ensures forall i :: 0 <= i < |s| - |r| ==> IsTrimmable(s[i])
    ensures r == [] || !IsTrimmable(r[0])
    decreases |s|
  {
    if s != [] && IsTrimmable(s[0]) then TrimStart(s[1..]) else s
  }

  function TrimEnd(s: string): (r: string)
    ensures |r| <= |s| && r == s[..|r|]
    ensures forall i :: |r| <= i < |s| ==> IsTrimmable(s[i])
    ensures r == [] || !IsTrimmable(r[|r| - 1])
    decreases |s|
  {
    if s != [] && IsTrimmable(s[|s| - 1]) then TrimEnd(s[..|s| - 1]) else s
  }

  /** `r` is `s` from index `k` on, less a tail, and everything cut away is trimmable. */
  ghost predicate IsTrimOf(s: string, r: string, k: nat) {
    k + |r| <= |s| && r == s[k..k + |r|]
    && (forall i :: 0 <= i < k ==> IsTrimmable(s[i]))
    && (forall i :: k + |r| <= i < |s| ==> IsTrimmable(s[i]))
  }

  /** String.trim: `r` is the middle of `s` left once the trimmable code points at
      both ends are removed, and it neither starts nor ends with one. */
  function Trim(s: string): (r: string)
    ensures r == [] || (!IsTrimmable(r[0]) && !IsTrimmable(r[|r| - 1]))
    ensures exists k :: IsTrimOf(s, r, k)
  {
    var t := TrimStart(s);
    var r := TrimEnd(t);
    assert IsTrimOf(s, r, |s| - |t|);
    r
  }

  /** A string that neither starts nor ends with a trimmable code point is its own trim. */
  lemma TrimIdentity(s: string)
    requires s == [] || (!IsTrimmable(s[0]) && !IsTrimmable(s[|s| - 1]))
    ensures Trim(s) == s
  {
  }

  /** TrimStart drops exactly a leading run of trimmable code points. */
  lemma {:induction false} TrimStartDrops(s: string, n: nat)
    requires n <= |s|
    requires forall i :: 0 <= i < n ==> IsTrimmable(s[i])
    requires n == |s| || !IsTrimmable(s[n])
    ensures TrimStart(s) == s[n..]
    decreases n
  {
    if n > 0 {
      TrimStartDrops(s[1..], n - 1);
      assert s[1..][n - 1..] == s[n..];
    }
  }

  /** TrimEnd drops exactly a trailing run of trimmable code points. */
  lemma {:induction false} TrimEndDrops(s: string, n: nat)
    requires n <= |s|
    requires forall i :: n <= i < |s| ==> IsTrimmable(s[i])
    requires n == 0 || !IsTrimmable(s[n - 1])
    ensures TrimEnd(s) == s[..n]
    decreases |s| - n
  {
    if n < |s| {
      TrimEndDrops(s[..|s| - 1], n);
      assert s[..|s| - 1][..n] == s[..n];
    }
  }

  /** Trimming a run of letters followed by `\s` characters leaves the letters. */
  lemma TrimLettersThenSpaces(s: string, n: nat)
    requires 0 < n <= |s|
    requires forall i :: 0 <= i < n ==> IsLetter(s[i])
    requires forall i :: n <= i < |s| ==> IsSpace(s[i])
    ensures Trim(s) == s[..n]
  {
    TrimStartDrops(s, 0);
    assert s[0..] == s;
    TrimEndDrops(s, n);
  }

  /** The same for a slice s[i..e] with letters up to `j` and `\s` from there. */
  lemma TrimSliceLettersThenSpaces(s: string, i: nat, j: nat, e: nat)
    requires i < j <= e <= |s|
    requires forall m :: i <= m < j ==> IsLetter(s[m])
    requires forall m :: j <= m < e ==> IsSpace(s[m])
    ensures Trim(s[i..e]) == s[i..j]
  {
    var t := s[i..e];
    assert t[..j - i] == s[i..j];
    assert Trim(t) == t[..j - i] by {
      assert forall m :: 0 <= m < |t| ==> t[m] == s[i + m];
      TrimLettersThenSpaces(t, j - i);
    }
  }

  /** Trimming leading blanks in front of a run of letters leaves the letters. */
  lemma TrimBlanksThenLetters(s: string, n: nat)
    requires n < |s|
    requires forall i :: 0 <= i < n ==> s[i] == ' '
    requires forall i :: n <= i < |s| ==> IsLetter(s[i])
    ensures Trim(s) == s[n..]
  {
    TrimStartDrops(s, n);
    var t := s[n..];
    TrimEndDrops(t, |t|);
    assert t[..|t|] == t;
  }

  /** The same for a prefix s[..e] with blanks up to `j` and letters from there. */
  lemma TrimSliceBlanksThenLetters(s: string, j: nat, e: nat)
    requires j < e <= |s|
    requires forall m :: 0 <= m < j ==> s[m] == ' '
    requires forall m :: j <= m < e ==> IsLetter(s[m])
    ensures Trim(s[..e]) == s[j..e]
  {
    var t := s[..e];
    assert t[j..] == s[j..e];
    assert Trim(t) == t[j..] by {
      assert forall m :: 0 <= m < |t| ==> t[m] == s[m];
      TrimBlanksThenLetters(t, j);
    }
  }

  // ---------------------------------------------------------------------------
  // String.split(", ") with the default limit 0

  /** The pieces that `ps` are joined from, with ", " between neighbours. */
  function JoinCommaSpace(ps: seq<string>): string
  {
    if ps == [] then []
    else if |ps| == 1 then ps[0]
    else ps[0] + ", " + JoinCommaSpace(ps[1..])
  }

  /** No occurrence of ", " inside `p`. */
  predicate NoCommaSpace(p: string) {
    forall i :: 0 <= i < |p| - 1 ==> !(p[i] == ',' && p[i + 1] == ' ')
  }

  /** The text around every occurrence of ", ", found left to right. `JoinOfPieces` and
      `PiecesHaveNoCommaSpace` show that joining the pieces back gives `s` and that no
      piece contains the separator. */
  function CommaSpacePieces(s: string): (r: seq<string>)
    ensures |r| >= 1
    decreases |s|
  {
    if s == [] then [[]]
    else if |s| >= 2 && s[0] == ',' && s[1] == ' ' then
      [[]] + CommaSpacePieces(s[2..])
    else
      var rest := CommaSpacePieces(s[1..]);
      [[s[0]] + rest[0]] + rest[1..]
  }

  /** Joining the pieces with ", " gives the string back. */
  lemma {:induction false} JoinOfPieces(s: string)
    ensures JoinCommaSpace(CommaSpacePieces(s)) == s
    decreases |s|
  {
    if s == [] {
    } else if |s| >= 2 && s[0] == ',' && s[1] == ' ' {
      JoinOfPieces(s[2..]);
      JoinCons([], CommaSpacePieces(s[2..]));
      assert s == [] + ", " + s[2..];
    } else {
      JoinOfPieces(s[1..]);
      JoinConsFirst(s[0], CommaSpacePieces(s[1..]));
      assert s == [s[0]] + s[1..];
    }
  }

  /** No piece contains ", ". */
  lemma {:induction false} PiecesHaveNoCommaSpace(s: string)
    ensures forall k :: 0 <= k < |CommaSpacePieces(s)| ==> NoCommaSpace(CommaSpacePieces(s)[k])
    decreases |s|
  {
    if s == [] {
    } else if |s| >= 2 && s[0] == ',' && s[1] == ' ' {
      PiecesHaveNoCommaSpace(s[2..]);
      NoCommaSpaceInAll([], CommaSpacePieces(s[2..]));
    } else {
      PiecesHaveNoCommaSpace(s[1..]);
      JoinOfPieces(s[1..]);
      var rest := CommaSpacePieces(s[1..]);
      FirstPieceNoCommaSpace(s, rest);
      NoCommaSpaceInAll([s[0]] + rest[0], rest[1..]);
    }
  }

  /** A piece without ", " in front of pieces without it. */
  lemma NoCommaSpaceInAll(p: string, ps: seq<string>)
    requires NoCommaSpace(p) && forall k :: 0 <= k < |ps| ==> NoCommaSpace(ps[k])
    ensures forall k :: 0 <= k < |[p] + ps| ==> NoCommaSpace(([p] + ps)[k])
  {
    assert forall k :: 1 <= k < |ps| + 1 ==> ([p] + ps)[k] == ps[k - 1];
  }

  /** A character put in front of the first piece comes first in the join. */
  lemma JoinConsFirst(c: char, rest: seq<string>)
    requires |rest| >= 1
    ensures JoinCommaSpace([[c] + rest[0]] + rest[1..]) == [c] + JoinCommaSpace(rest)
  {
    JoinCons([c] + rest[0], rest[1..]);
    if |rest| > 1 {
      AppendThenSeparator([c], rest[0], JoinCommaSpace(rest[1..]));
    }
  }

  /** The join of one more piece in front. */
  lemma JoinCons(p: string, ps: seq<string>)
    ensures JoinCommaSpace([p] + ps) == if ps == [] then p else p + ", " + JoinCommaSpace(ps)
  {
    assert ([p] + ps)[1..] == ps;
  }

  lemma AppendThenSeparator(x: string, a: string, t: string)
    ensures (x + a) + ", " + t == x + (a + ", " + t)
  {
  }

  lemma FirstPieceNoCommaSpace(s: string, rest: seq<string>)
    requires s != [] && !(|s| >= 2 && s[0] == ',' && s[1] == ' ')
    requires |rest| >= 1 && JoinCommaSpace(rest) == s[1..]
    requires NoCommaSpace(rest[0])
    ensures NoCommaSpace([s[0]] + rest[0])
  {
    var p := [s[0]] + rest[0];
    if |rest[0]| > 0 {
      assert rest[0][0] == JoinCommaSpace(rest)[0];
    }
    forall i | 0 <= i < |p| - 1 ensures !(p[i] == ',' && p[i + 1] == ' ') {
      if i > 0 {
        assert p[i] == rest[0][i - 1] && p[i + 1] == rest[0][i];
      }
    }
  }

  function DropTrailingEmpty(ps: seq<string>): (r: seq<string>)
    ensures |r| <= |ps| && r == ps[..|r|]
    ensures forall k :: |r| <= k < |ps| ==> ps[k] == []
    ensures r == [] || r[|r| - 1] != []
  {
    if ps != [] && ps[|ps| - 1] == [] then DropTrailingEmpty(ps[..|ps| - 1]) else ps
  }

  /** String.split(", "): a string without the separator is returned whole; otherwise
      the pieces around each separator, with trailing empty pieces removed. */
  function SplitOnCommaSpace(s: string): (r: seq<string>)
    ensures forall k :: 0 <= k < |r| ==> NoCommaSpace(r[k])
    ensures |r| == 1 ==> r[0] == s || r[0] != []
  {
    var pieces := CommaSpacePieces(s);
    PiecesHaveNoCommaSpace(s);
    JoinOfPieces(s);
    if |pieces| == 1 then pieces else DropTrailingEmpty(pieces)
  }

  /** Splitting undoes joining when the pieces contain no comma. */
  lemma {:induction false} PiecesOfJoin(ps: seq<string>)
    requires |ps| >= 1
    requires forall k, i :: 0 <= k < |ps| && 0 <= i < |ps[k]| ==> ps[k][i] != ','
    ensures CommaSpacePieces(JoinCommaSpace(ps)) == ps
  {
    var more := ps[1..];
    var u := if more == [] then [] else ", " + JoinCommaSpace(more);
    assert CommaSpacePieces(u) == [[]] + more by {
      if more != [] {
        PiecesOfJoin(more);
        PiecesAfterSeparator(JoinCommaSpace(more));
      }
    }
    JoinCons(ps[0], more);
    assert [ps[0]] + more == ps;
    assert JoinCommaSpace(ps) == ps[0] + u;
    PiecesOfCommaFree(ps[0], u, [], more);
    assert ps[0] + [] == ps[0];
  }

  /** Comma-free text in front of `u` joins the first piece of `u`. */
  lemma {:induction false} PiecesOfCommaFree(p: string, u: string, q: string, rest: seq<string>)
    requires forall i :: 0 <= i < |p| ==> p[i] != ','
    requires CommaSpacePieces(u) == [q] + rest
    ensures CommaSpacePieces(p + u) == [p + q] + rest
    decreases |p|
  {
    if p == [] {
      assert p + u == u && p + q == q;
    } else {
      PiecesOfCommaFree(p[1..], u, q, rest);
      assert p + u == [p[0]] + (p[1..] + u);
      PiecesAfterChar(p[0], p[1..] + u);
      ConsParts(p[1..] + q, rest);
      assert [p[0]] + (p[1..] + q) == p + q;
    }
  }

  /** The pieces of ", " + t: an empty piece, then the pieces of `t`. */
  lemma PiecesAfterSeparator(t: string)
    ensures CommaSpacePieces(", " + t) == [[]] + CommaSpacePieces(t)
  {
    assert (", " + t)[2..] == t;
  }

  /** The pieces of [c] + t for a character `c` other than a comma: `c` joins the first
      piece of `t`. */
  lemma PiecesAfterChar(c: char, t: string)
    requires c != ','
    ensures CommaSpacePieces([c] + t)
            == [[c] + CommaSpacePieces(t)[0]] + CommaSpacePieces(t)[1..]
  {
    assert ([c] + t)[1..] == t;
  }

  lemma ConsParts<T>(x: T, rest: seq<T>)
    ensures ([x] + rest)[0] == x && ([x] + rest)[1..] == rest
  {
  }

  /** String.split(", ") recovers the pieces of a join when no piece contains a comma
      and the last piece is not empty. */
  lemma SplitOfJoin(ps: seq<string>)
    requires |ps| >= 1 && ps[|ps| - 1] != []
    requires forall k, i :: 0 <= k < |ps| && 0 <= i < |ps[k]| ==> ps[k][i] != ','
    ensures SplitOnCommaSpace(JoinCommaSpace(ps)) == ps
  {
    PiecesOfJoin(ps);
  }

  /** The last piece of a join of two or more pieces follows the last ", ". */
  lemma {:induction false} JoinLast(ps: seq<string>)
    requires |ps| >= 2
    ensures JoinCommaSpace(ps) == JoinCommaSpace(ps[..|ps| - 1]) + ", " + ps[|ps| - 1]
    decreases |ps|
  {
    if |ps| == 2 {
      assert ps[..1] == [ps[0]];
    } else {
      JoinLast(ps[1..]);
      assert ps[1..][..|ps| - 2] == ps[..|ps| - 1][1..];
    }
  }

  /** Joining what String.split(", ") returns gives the string back when it does not end
      with a space: no trailing empty piece can then be dropped. */
  lemma JoinOfSplit(s: string)
    requires s == [] || s[|s| - 1] != ' '
    ensures JoinCommaSpace(SplitOnCommaSpace(s)) == s
  {
    var pieces := CommaSpacePieces(s);
    JoinOfPieces(s);
    if |pieces| > 1 {
      JoinLast(pieces);
    }
  }
}
