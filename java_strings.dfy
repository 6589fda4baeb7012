/**
  `String.trim` and `String.split` as the converter uses them. Both split
  patterns (`" / "` and `" "`) hold no regular-expression metacharacter, so a
  split is a split on a literal delimiter, with Java's rules for empty pieces.
 */
module JavaStrings {

  /** The characters `String.trim` removes: every code point up to U+0020. */
  predicate IsWhite(c: char)
  {
    c <= ' '
  }

  function TrimLeft(s: string): (r: string)
    ensures |r| <= |s| && r == s[|s| - |r|..]
    ensures r == [] || !IsWhite(r[0])
    ensures forall i :: 0 <= i < |s| - |r| ==> IsWhite(s[i])
  {
    if s != [] && IsWhite(s[0]) then TrimLeft(s[1..]) else s
  }

  function TrimRight(s: string): (r: string)
    ensures |r| <= |s| && r == s[..|r|]
    ensures r == [] || !IsWhite(r[|r| - 1])
    ensures forall i :: |r| <= i < |s| ==> IsWhite(s[i])
  {
    if s != [] && IsWhite(s[|s| - 1]) then TrimRight(s[..|s| - 1]) else s
  }

  /** `String.trim`: the result neither starts nor ends with a white character. */
  function Trim(s: string): (r: string)
    ensures |r| <= |s|
    ensures r == [] || (!IsWhite(r[0]) && !IsWhite(r[|r| - 1]))
  {
    TrimRight(TrimLeft(s))
  }

  /** A string whose ends are not white is left as it is by `trim`. */
  lemma TrimKeepsClean(s: string)
    requires s == [] || (!IsWhite(s[0]) && !IsWhite(s[|s| - 1]))
    ensures Trim(s) == s
  {
  }

  /** `trim` removes a white character added after a string whose ends are not white. */
  lemma TrimSpaced(s: string, c: char)
    requires s != [] && !IsWhite(s[0]) && !IsWhite(s[|s| - 1]) && IsWhite(c)
    ensures Trim(s + [c]) == s
  {
    assert s + [c] == "" + s + [c];
    TrimDropsPadding("", s, [c]);
    TrimKeepsClean(s);
  }

  /** White characters added around a string are removed by `trim`. */
  lemma {:induction false} TrimDropsPadding(front: string, s: string, back: string)
    requires forall i :: 0 <= i < |front| ==> IsWhite(front[i])
    requires forall i :: 0 <= i < |back| ==> IsWhite(back[i])
    ensures Trim(front + s + back) == Trim(s)
  {
    TrimLeftPadding(front, s + back);
    assert front + s + back == front + (s + back);
    TrimRightPadding(TrimLeft(s + back), back);
    TrimLeftThroughBack(s, back);
  }

  lemma {:induction false} TrimLeftPadding(front: string, s: string)
    requires forall i :: 0 <= i < |front| ==> IsWhite(front[i])
    ensures TrimLeft(front + s) == TrimLeft(s)
    decreases |front|
  {
    if front == [] {
      assert front + s == s;
    } else {
      assert (front + s)[0] == front[0] && (front + s)[1..] == front[1..] + s;
      TrimLeftPadding(front[1..], s);
    }
  }

  lemma {:induction false} TrimRightPadding(s: string, back: string)
    requires forall i :: 0 <= i < |back| ==> IsWhite(back[i])
    ensures TrimRight(s + back) == TrimRight(s)
    decreases |back|
  {
    if back == [] {
      assert s + back == s;
    } else {
      var b := back[..|back| - 1];
      assert (s + back)[|s + back| - 1] == back[|back| - 1];
      assert (s + back)[..|s + back| - 1] == s + b;
      TrimRightPadding(s, b);
    }
  }

  /** Trimming the left end first does not reach into the trailing padding, unless all is white. */
  lemma {:induction false} TrimLeftThroughBack(s: string, back: string)
    requires forall i :: 0 <= i < |back| ==> IsWhite(back[i])
    ensures TrimRight(TrimLeft(s + back)) == TrimRight(TrimLeft(s))
    decreases |s|
  {
    if s == [] {
      assert s + back == back;
      AllWhiteTrimsToEmpty(back);
    } else if IsWhite(s[0]) {
      assert (s + back)[1..] == s[1..] + back;
      TrimLeftThroughBack(s[1..], back);
    } else {
      TrimRightPadding(s, back);
    }
  }

  lemma {:induction false} AllWhiteTrimsToEmpty(w: string)
    requires forall i :: 0 <= i < |w| ==> IsWhite(w[i])
    ensures TrimLeft(w) == []
    decreases |w|
  {
    if w != [] {
      AllWhiteTrimsToEmpty(w[1..]);
    }
  }

  /** Whether the string has no occurrence of the character. */
  predicate Free(s: string, m: char)
  {
    forall i :: 0 <= i < |s| ==> s[i] != m
  }

  /**
    `d` is a delimiter whose character at index `k` occurs nowhere else in
    `d`: `" "` with `k == 0`, and `" / "` with `k == 1`.
   */
  predicate Marked(d: string, k: nat)
  {
    k < |d| && forall i :: 0 <= i < |d| && i != k ==> d[i] != d[k]
  }

  /**
    The strings between the leftmost non-overlapping occurrences of `d` in
    `s`, scanning from the left, every piece kept; a single piece means that
    `d` does not occur in `s`.
   */
  function Pieces(s: string, d: string): (r: seq<string>)
    requires d != []
    ensures |r| >= 1
    decreases |s|
  {
    if |s| < |d| then [s]
    else if s[..|d|] == d then [""] + Pieces(s[|d|..], d)
    else
      var rest := Pieces(s[1..], d);
      [[s[0]] + rest[0]] + rest[1..]
  }

  /** Drops the empty strings at the end of `xs`. */
  function DropTrailingEmpty(xs: seq<string>): (r: seq<string>)
    ensures r <= xs
    ensures r == [] || r[|r| - 1] != ""
    ensures forall i :: |r| <= i < |xs| ==> xs[i] == ""
  {
    if xs != [] && xs[|xs| - 1] == "" then DropTrailingEmpty(xs[..|xs| - 1]) else xs
  }

  /**
    `s.split(d)` for a delimiter without metacharacters: with no occurrence
    the result is `[s]` (even for the empty `s`); otherwise the pieces, with
    the trailing empty ones removed and the leading ones kept.
   */
  function Split(s: string, d: string): (r: seq<string>)
    requires d != []
    ensures r <= Pieces(s, d)
    ensures |r| >= 2 ==> r[|r| - 1] != ""
    ensures forall i :: |r| <= i < |Pieces(s, d)| ==> Pieces(s, d)[i] == ""
  {
    var p := Pieces(s, d);
    if |p| == 1 then p else DropTrailingEmpty(p)
  }

  /** Whether `s` has a character other than `m`. */
  predicate HasOther(s: string, m: char)
  {
    exists i :: 0 <= i < |s| && s[i] != m
  }

  /** Whether the last of the strings exists and is not empty, so that `split` drops nothing after it. */
  predicate EndsNonEmpty(xs: seq<string>)
  {
    xs != [] && xs[|xs| - 1] != ""
  }

  /** A piece with something in it survives the dropping: the trailing empty pieces go, the rest stay. */
  lemma {:induction false} DropTrailingEmptyAppend(xs: seq<string>, ys: seq<string>)
    requires DropTrailingEmpty(ys) != []
    ensures DropTrailingEmpty(xs + ys) == xs + DropTrailingEmpty(ys)
    decreases |ys|
  {
    if ys[|ys| - 1] == "" {
      assert (xs + ys)[..|xs + ys| - 1] == xs + ys[..|ys| - 1];
      DropTrailingEmptyAppend(xs, ys[..|ys| - 1]);
    }
  }

  /** The pieces of a string with a character other than the delimiter's one: some piece is not empty. */
  lemma {:induction false} PiecesOfOther(s: string, m: char) returns (j: nat)
    requires HasOther(s, m)
    ensures j < |Pieces(s, [m])| && Pieces(s, [m])[j] != ""
    decreases |s|
  {
    if s[0] == m {
      assert s[..1] == [m];
      var i :| 0 <= i < |s| && s[i] != m;
      assert s[1..][i - 1] != m;
      var j' := PiecesOfOther(s[1..], m);
      j := j' + 1;
    } else {
      assert s[..1] != [m];
      j := 0;
    }
  }

  /** The split of a string with a character other than the delimiter ends with a non-empty piece. */
  lemma SplitKeepsSomething(s: string, m: char)
    requires HasOther(s, m)
    ensures EndsNonEmpty(Split(s, [m]))
  {
    var j := PiecesOfOther(s, m);
  }

  /** When the rest keeps a non-empty piece, `split` cuts a first piece free of the delimiter off at the delimiter. */
  lemma SplitCut(a: string, s: string, d: string, k: nat)
    requires Marked(d, k) && Free(a, d[k]) && EndsNonEmpty(Split(s, d))
    ensures Split(a + d + s, d) == [a] + Split(s, d)
  {
    PiecesCut(a, d, k, s);
    var p := Pieces(s, d);
    assert DropTrailingEmpty(p) == Split(s, d);
    DropTrailingEmptyAppend([a], p);
  }

  /** A delimiter before a string that has some other character adds one empty piece in front. */
  lemma SplitLeadingMark(s: string, m: char)
    requires HasOther(s, m)
    ensures Split([m] + s, [m]) == [""] + Split(s, [m])
  {
    SplitKeepsSomething(s, m);
    SplitCut("", s, [m], 0);
    assert "" + [m] + s == [m] + s;
  }

  /** One delimiter after a piece cuts it off; a second one adds an empty piece after it. */
  lemma SplitDoubledMark(a: string, s: string, m: char)
    requires Free(a, m) && HasOther(s, m)
    ensures Split(a + [m] + s, [m]) == [a] + Split(s, [m])
    ensures Split(a + [m, m] + s, [m]) == [a] + [""] + Split(s, [m])
  {
    SplitKeepsSomething(s, m);
    SplitCut(a, s, [m], 0);
    SplitLeadingMark(s, m);
    SplitCut(a, [m] + s, [m], 0);
    TwoMarks(a, s, m);
  }

  /** A delimiter followed by a string that starts with the delimiter: two delimiters in a row. */
  lemma TwoMarks(a: string, s: string, m: char)
    ensures a + [m] + ([m] + s) == a + [m, m] + s
  {
  }

  /** A single-character delimiter added at the end makes one more, empty, piece. */
  lemma {:induction false} PiecesSnocMark(s: string, m: char)
    ensures Pieces(s + [m], [m]) == Pieces(s, [m]) + [""]
    decreases |s|
  {
    var s' := s + [m];
    if s == [] {
      assert s'[..1] == [m] && s'[1..] == [];
    } else {
      assert s'[..1] == s[..1] && s'[1..] == s[1..] + [m];
      PiecesSnocMark(s[1..], m);
    }
  }

  /** A delimiter at the end of a string that keeps a non-empty piece changes nothing in its split. */
  lemma SplitTrailingMark(s: string, m: char)
    requires EndsNonEmpty(Split(s, [m]))
    ensures Split(s + [m], [m]) == Split(s, [m])
  {
    PiecesSnocMark(s, m);
    var p := Pieces(s, [m]);
    assert (p + [""])[..|p + [""]| - 1] == p;
    assert DropTrailingEmpty(p) == Split(s, [m]);
  }

  /** The strings of `xs` with `d` between neighbours. */
  function JoinWith(xs: seq<string>, d: string): string
  {
    if |xs| == 0 then ""
    else if |xs| == 1 then xs[0]
    else xs[0] + d + JoinWith(xs[1..], d)
  }

  /** Cutting loses nothing: the pieces, joined again with the delimiter, give back the string. */
  lemma {:induction false} PiecesJoin(s: string, d: string)
    requires d != []
    ensures JoinWith(Pieces(s, d), d) == s
    decreases |s|
  {
    if |s| < |d| {
      assert Pieces(s, d) == [s];
    } else if s[..|d|] == d {
      var rest := Pieces(s[|d|..], d);
      assert Pieces(s, d) == [""] + rest;
      PiecesJoin(s[|d|..], d);
      JoinWithCons("", rest, d);
      assert s == s[..|d|] + s[|d|..];
    } else {
      var rest := Pieces(s[1..], d);
      assert Pieces(s, d) == [[s[0]] + rest[0]] + rest[1..];
      PiecesJoin(s[1..], d);
      JoinWithWiden(s[0], rest, d);
      assert s == [s[0]] + s[1..];
    }
  }

  /** A string put in front of a non-empty list is joined to it with the delimiter. */
  lemma JoinWithCons(x: string, xs: seq<string>, d: string)
    requires xs != []
    ensures JoinWith([x] + xs, d) == x + d + JoinWith(xs, d)
  {
    assert ([x] + xs)[1..] == xs;
  }

  /** A character put in front of the first string is put in front of the join. */
  lemma JoinWithWiden(c: char, xs: seq<string>, d: string)
    requires xs != []
    ensures JoinWith([[c] + xs[0]] + xs[1..], d) == [c] + JoinWith(xs, d)
  {
    if |xs| >= 2 {
      JoinWithCons([c] + xs[0], xs[1..], d);
      assert [xs[0]] + xs[1..] == xs;
      JoinWithCons(xs[0], xs[1..], d);
    }
  }

  /** The strings of `xs`, each followed by `d`. */
  function EachFollowedBy(xs: seq<string>, d: string): string
  {
    if xs == [] then "" else EachFollowedBy(xs[..|xs| - 1], d) + (xs[|xs| - 1] + d)
  }

  /** A string free of one of the delimiter's characters is one piece. */
  lemma {:induction false} PiecesOfFree(s: string, d: string, k: nat)
    requires k < |d| && Free(s, d[k])
    ensures Pieces(s, d) == [s]
    decreases |s|
  {
    if |s| >= |d| {
      assert s[..|d|][k] == s[k];
      PiecesOfFree(s[1..], d, k);
      assert [s[0]] + s[1..] == s;
    }
  }

  /** A delimiter after a piece free of the marked character ends that piece. */
  lemma {:induction false} PiecesCut(a: string, d: string, k: nat, rest: string)
    requires Marked(d, k) && Free(a, d[k])
    ensures Pieces(a + d + rest, d) == [a] + Pieces(rest, d)
    decreases |a|
  {
    var s := a + d + rest;
    if a == [] {
      assert s[..|d|] == d && s[|d|..] == rest;
    } else {
      HeadIsNotDelimiter(a, d, k, rest);
      assert s[1..] == a[1..] + d + rest;
      FreeTail(a, d[k]);
      PiecesCut(a[1..], d, k, rest);
      assert [a[0]] + a[1..] == a;
    }
  }

  /** A non-empty piece free of the marked character does not start with the delimiter. */
  lemma HeadIsNotDelimiter(a: string, d: string, k: nat, rest: string)
    requires Marked(d, k) && Free(a, d[k]) && a != []
    ensures (a + d + rest)[..|d|] != d
  {
    var head := (a + d + rest)[..|d|];
    if k < |a| {
      assert head[k] == a[k];
    } else {
      var i := k - |a|;
      assert head[k] == d[i];
      assert i != k && d[i] != d[k];
    }
  }

  lemma FreeTail(a: string, m: char)
    requires Free(a, m) && a != []
    ensures Free(a[1..], m)
  {
    forall i | 0 <= i < |a| - 1
      ensures a[1..][i] != m
    {
      assert a[1..][i] == a[i + 1];
    }
  }

  /** Splitting what was joined gives the strings back, none of them containing the marked character. */
  lemma {:induction false} PiecesOfJoin(xs: seq<string>, d: string, k: nat)
    requires Marked(d, k) && |xs| >= 1
    requires forall i :: 0 <= i < |xs| ==> Free(xs[i], d[k])
    ensures Pieces(JoinWith(xs, d), d) == xs
    decreases |xs|
  {
    if |xs| == 1 {
      PiecesOfFree(xs[0], d, k);
    } else {
      PiecesOfJoin(xs[1..], d, k);
      PiecesCut(xs[0], d, k, JoinWith(xs[1..], d));
    }
  }

  /**
    Java's split applied to a join: the pieces come back, the leading empty
    ones kept and, when there is more than one, the trailing empty ones dropped.
   */
  lemma SplitOfJoin(xs: seq<string>, d: string, k: nat)
    requires Marked(d, k) && |xs| >= 1
    requires forall i :: 0 <= i < |xs| ==> Free(xs[i], d[k])
    ensures Split(JoinWith(xs, d), d) == if |xs| == 1 then xs else DropTrailingEmpty(xs)
  {
    PiecesOfJoin(xs, d, k);
  }

  /** With no occurrence of the delimiter, split returns the input alone, even when it is empty. */
  lemma SplitOfFree(s: string, d: string, k: nat)
    requires k < |d| && Free(s, d[k])
    ensures Split(s, d) == [s]
  {
    PiecesOfFree(s, d, k);
  }

  /** Joining one more string at the end. */
  lemma {:induction false} JoinWithSnoc(xs: seq<string>, x: string, d: string)
    ensures JoinWith(xs + [x], d) == if xs == [] then x else JoinWith(xs, d) + d + x
    decreases |xs|
  {
    if |xs| == 1 {
      assert xs + [x] == [xs[0], x];
    } else if |xs| > 1 {
      assert (xs + [x])[1..] == xs[1..] + [x];
      JoinWithSnoc(xs[1..], x, d);
    }
  }

  lemma AppendAssociative(a: string, b: string, c: string)
    ensures (a + b) + c == a + (b + c)
  {
  }

  /** Regrouping a concatenation of four strings. */
  lemma Regroup(a: string, b: string, c: string, e: string)
    ensures (a + b) + (c + e) == (a + b + c) + e
  {
  }

  lemma EachFollowedBySnoc(xs: seq<string>, x: string, d: string)
    ensures EachFollowedBy(xs + [x], d) == EachFollowedBy(xs, d) + (x + d)
  {
    assert (xs + [x])[..|xs|] == xs;
  }

  /** Following each string by `d` is joining them with `d` and adding one more `d`. */
  lemma {:induction false} EachFollowedByJoin(xs: seq<string>, d: string)
    requires |xs| >= 1
    ensures EachFollowedBy(xs, d) == JoinWith(xs, d) + d
    decreases |xs|
  {
    var n := |xs|;
    if n == 1 {
      assert xs[..0] == [];
      assert "" + (xs[0] + d) == xs[0] + d;
    } else {
      EachFollowedByJoin(xs[..n - 1], d);
      JoinWithLast(xs, d);
      Regroup(JoinWith(xs[..n - 1], d), d, xs[n - 1], d);
    }
  }

  /** A join of two or more strings ends with the delimiter and the last string. */
  lemma JoinWithLast(xs: seq<string>, d: string)
    requires |xs| >= 2
    ensures JoinWith(xs, d) == JoinWith(xs[..|xs| - 1], d) + d + xs[|xs| - 1]
  {
    JoinWithSnoc(xs[..|xs| - 1], xs[|xs| - 1], d);
    assert xs[..|xs| - 1] + [xs[|xs| - 1]] == xs;
  }

  lemma {:induction false} JoinWithFree(xs: seq<string>, d: string, m: char)
    requires Free(d, m)
    requires forall i :: 0 <= i < |xs| ==> Free(xs[i], m)
    ensures Free(JoinWith(xs, d), m)
    decreases |xs|
  {
    if |xs| > 1 {
      JoinWithFree(xs[1..], d, m);
    }
  }

  /** A join of non-empty strings whose outer ends are not white is kept by `trim`. */
  lemma TrimJoinClean(xs: seq<string>, d: string)
    requires |xs| >= 1 && forall i :: 0 <= i < |xs| ==> xs[i] != []
    requires !IsWhite(xs[0][0]) && !IsWhite(xs[|xs| - 1][|xs[|xs| - 1]| - 1])
    ensures JoinWith(xs, d) != [] && Trim(JoinWith(xs, d)) == JoinWith(xs, d)
  {
    JoinWithEnds(xs, d);
    TrimKeepsClean(JoinWith(xs, d));
  }

  /** `trim` removes a white character added after such a join, and nothing else. */
  lemma TrimJoinSpaced(xs: seq<string>, d: string, c: char)
    requires |xs| >= 1 && forall i :: 0 <= i < |xs| ==> xs[i] != []
    requires !IsWhite(xs[0][0]) && !IsWhite(xs[|xs| - 1][|xs[|xs| - 1]| - 1]) && IsWhite(c)
    ensures Trim(JoinWith(xs, d) + [c]) == JoinWith(xs, d)
  {
    JoinWithEnds(xs, d);
    TrimSpaced(JoinWith(xs, d), c);
  }

  /** The first and last characters of a join of non-empty strings. */
  lemma {:induction false} JoinWithEnds(xs: seq<string>, d: string)
    requires |xs| >= 1 && forall i :: 0 <= i < |xs| ==> xs[i] != []
    ensures var j := JoinWith(xs, d); |j| >= 1 && j[0] == xs[0][0] && j[|j| - 1] == xs[|xs| - 1][|xs[|xs| - 1]| - 1]
    decreases |xs|
  {
    if |xs| > 1 {
      JoinWithEnds(xs[1..], d);
    }
  }
}
