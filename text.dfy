/**
  The handful of Python `str` operations the scraper relies on, over
  `string` (= `seq<char>`): `strip()`, `in` (substring test), `split(sep)`,
  `sep.join(parts)` and `replace(old, new)`.  Each is defined once, by
  recursion, and related to the others by lemmas (split and join are
  inverses; replace is split followed by join).
*/
module Text {

  /** The characters Python's `str.isspace()` accepts, which `strip()` removes. */
  predicate IsSpace(c: char) {
    || ('\t' <= c <= '\r')
    || ('\U{1C}' <= c <= ' ')
    || c == '\U{85}' || c == '\U{A0}' || c == '\U{1680}'
    || ('\U{2000}' <= c <= '\U{200A}')
    || c == '\U{2028}' || c == '\U{2029}' || c == '\U{202F}'
    || c == '\U{205F}' || c == '\U{3000}'
  }

  predicate AllSpace(s: string) {
    forall k | 0 <= k < |s| :: IsSpace(s[k])
  }

  /** `s.lstrip()`. */
  function TrimLeft(s: string): (r: string)
    ensures |r| <= |s|
  {
    if |s| > 0 && IsSpace(s[0]) then TrimLeft(s[1..]) else s
  }

  /** `s.rstrip()`. */
  function TrimRight(s: string): (r: string)
    ensures |r| <= |s|
  {
    if |s| > 0 && IsSpace(s[|s| - 1]) then TrimRight(s[..|s| - 1]) else s
  }

  /** `lstrip` drops the longest all-whitespace prefix. */
  lemma {:induction false} TrimLeftSpec(s: string)
    ensures var r := TrimLeft(s);
      && |r| <= |s| && r == s[|s| - |r|..]
      && AllSpace(s[..|s| - |r|])
      && (r == [] || !IsSpace(r[0]))
  {
    if |s| > 0 && IsSpace(s[0]) {
      TrimLeftSpec(s[1..]);
      var r := TrimLeft(s[1..]);
      assert s[1..][|s| - 1 - |r|..] == s[|s| - |r|..];
      assert s[..|s| - |r|] == [s[0]] + s[1..][..|s| - 1 - |r|];
    }
  }

  /** `rstrip` drops the longest all-whitespace suffix. */
  lemma {:induction false} TrimRightSpec(s: string)
    ensures var r := TrimRight(s);
      && |r| <= |s| && r == s[..|r|]
      && AllSpace(s[|r|..])
      && (r == [] || !IsSpace(r[|r| - 1]))
  {
    if |s| > 0 && IsSpace(s[|s| - 1]) {
      var u := s[..|s| - 1];
      TrimRightSpec(u);
      var r := TrimRight(u);
      assert u[..|r|] == s[..|r|];
      assert s[|r|..] == u[|r|..] + [s[|s| - 1]];
    }
  }

  /** `s.strip()`: neither starts nor ends with whitespace (see `StripInfix` for the rest). */
  function Strip(s: string): (r: string)
    ensures r == [] || (!IsSpace(r[0]) && !IsSpace(r[|r| - 1]))
  {
    var t := TrimLeft(s);
    TrimLeftSpec(s);
    TrimRightSpec(t);
    var r := TrimRight(t);
    assert r != [] ==> r[0] == t[0];
    r
  }

  /** `s.strip()` is the infix of `s` left once the whitespace on both sides is gone. */
  lemma StripInfix(s: string)
    ensures var i := |s| - |TrimLeft(s)|; var r := Strip(s);
      && i + |r| <= |s| && r == s[i..i + |r|]
      && AllSpace(s[..i]) && AllSpace(s[i + |r|..])
  {
    var t := TrimLeft(s);
    TrimLeftSpec(s);
    TrimRightSpec(t);
    var i := |s| - |t|;
    var r := TrimRight(t);
    assert t[..|r|] == s[i..i + |r|];
    assert t[|r|..] == s[i + |r|..];
  }

  /** A string that neither starts nor ends with whitespace is its own strip. */
  lemma StripUnchanged(s: string)
    requires s == [] || (!IsSpace(s[0]) && !IsSpace(s[|s| - 1]))
    ensures Strip(s) == s
  {
  }

  /** Stripping twice is stripping once. */
  lemma StripIdempotent(s: string)
    ensures Strip(Strip(s)) == Strip(s)
  {
    var r := Strip(s);
    assert TrimLeft(r) == r;
    assert TrimRight(r) == r;
  }

  /** A character that is absent from `s` is absent from `s.strip()`. */
  lemma StripKeepsAbsent(s: string, c: char)
    ensures c !in s ==> c !in Strip(s)
  {
    if c !in s {
      StripInfix(s);
      var i := |s| - |TrimLeft(s)|;
      var r := Strip(s);
      forall k | 0 <= k < |r| ensures r[k] != c {
        assert r[k] == s[i + k];
      }
    }
  }

  predicate IsPrefix(p: string, s: string) {
    |p| <= |s| && s[..|p|] == p
  }

  /** Python's `pat in s`. */
  predicate Contains(s: string, pat: string) {
    exists i | 0 <= i <= |s| :: IsPrefix(pat, s[i..])
  }

  /** `s` holds the two-character string `[x, y]` somewhere. */
  predicate HasPair(s: string, x: char, y: char) {
    exists i | 0 <= i < |s| - 1 :: s[i] == x && s[i + 1] == y
  }

  lemma PairIsContains(s: string, x: char, y: char)
    ensures Contains(s, [x, y]) <==> HasPair(s, x, y)
  {
    if Contains(s, [x, y]) {
      var i :| 0 <= i <= |s| && IsPrefix([x, y], s[i..]);
      assert s[i] == s[i..][0] && s[i + 1] == s[i..][1];
    }
    if HasPair(s, x, y) {
      var i :| 0 <= i < |s| - 1 && s[i] == x && s[i + 1] == y;
      assert s[i..][..2] == [x, y];
    }
  }

  /**
    `s.split(sep)` for a non-empty separator: the pieces between the
    non-overlapping occurrences of `sep`, found from the left.
  */
  function Split(s: string, sep: string): (parts: seq<string>)
    requires |sep| > 0
    ensures |parts| >= 1
    decreases |s|
  {
    if |s| < |sep| then [s]
    else if s[..|sep|] == sep then [[]] + Split(s[|sep|..], sep)
    else
      var rest := Split(s[1..], sep);
      [[s[0]] + rest[0]] + rest[1..]
  }

  /** `sep.join(parts)`. */
  function Join(parts: seq<string>, sep: string): string {
    if |parts| == 0 then []
    else if |parts| == 1 then parts[0]
    else parts[0] + sep + Join(parts[1..], sep)
  }

  lemma JoinCons(x: char, rest: seq<string>, sep: string)
    requires |rest| >= 1
    ensures Join([[x] + rest[0]] + rest[1..], sep) == [x] + Join(rest, sep)
  {
    var parts := [[x] + rest[0]] + rest[1..];
    assert parts[1..] == rest[1..];
  }

  /** What `SplitFirst` states about the first piece `p` of a split of `s` into `n` pieces. */
  predicate FirstPieceOf(s: string, sep: string, p: string, n: nat) {
    && |p| <= |s| && p == s[..|p|]
    && (forall i | 0 <= i < |p| :: !IsPrefix(sep, s[i..]))
    && (n == 1 ==> p == s)
    && (n > 1 ==> IsPrefix(sep, s[|p|..]))
  }

  /** The step of `SplitFirst` when `s` does not start with `sep`. */
  lemma FirstPieceCons(s: string, sep: string, q: string, n: nat)
    requires |s| > 0 && !IsPrefix(sep, s)
    requires FirstPieceOf(s[1..], sep, q, n)
    ensures FirstPieceOf(s, sep, [s[0]] + q, n)
  {
    assert s[0..] == s;
    forall i | 1 <= i < 1 + |q| ensures !IsPrefix(sep, s[i..]) {
      assert s[i..] == s[1..][i - 1..];
    }
    assert s[1 + |q|..] == s[1..][|q|..];
    assert [s[0]] + q == s[..1 + |q|];
  }

  /**
    The first piece of `s.split(sep)` is the prefix of `s` before the first
    occurrence of `sep`, or all of `s` when there is none.
  */
  lemma {:induction false} SplitFirst(s: string, sep: string)
    requires |sep| > 0
    ensures var parts := Split(s, sep); var p := parts[0];
      && |p| <= |s| && p == s[..|p|]
      && (forall i | 0 <= i < |p| :: !IsPrefix(sep, s[i..]))
      && (|parts| == 1 ==> p == s)
      && (|parts| > 1 ==> IsPrefix(sep, s[|p|..]))
    decreases |s|
  {
    var parts := Split(s, sep);
    if |s| < |sep| {
      forall i | 0 <= i < |s| ensures !IsPrefix(sep, s[i..]) {
        assert |s[i..]| < |sep|;
      }
    } else if s[..|sep|] == sep {
      assert s[0..] == s;
    } else {
      var rest := Split(s[1..], sep);
      SplitFirst(s[1..], sep);
      assert FirstPieceOf(s[1..], sep, rest[0], |rest|);
      FirstPieceCons(s, sep, rest[0], |rest|);
      assert parts == [[s[0]] + rest[0]] + rest[1..];
      assert FirstPieceOf(s, sep, parts[0], |parts|);
    }
  }

  /** `s.split(sep)` has more than one piece exactly when `sep in s`. */
  lemma SplitMany(s: string, sep: string)
    requires |sep| > 0
    ensures |Split(s, sep)| > 1 <==> Contains(s, sep)
  {
    SplitFirst(s, sep);
    var parts := Split(s, sep);
    if |parts| == 1 {
      forall i | 0 <= i <= |s| ensures !IsPrefix(sep, s[i..]) {
        if i == |s| { assert |s[i..]| == 0; }
      }
    } else {
      assert IsPrefix(sep, s[|parts[0]|..]);
    }
  }

  /** After the first piece, the pieces are the split of what follows the first `sep`. */
  lemma {:induction false} SplitRest(s: string, sep: string)
    requires |sep| > 0 && |Split(s, sep)| > 1
    ensures |Split(s, sep)[0]| + |sep| <= |s|
    ensures Split(s, sep)[1..] == Split(s[|Split(s, sep)[0]| + |sep|..], sep)
    decreases |s|
  {
    if |s| >= |sep| && s[..|sep|] != sep {
      SplitRest(s[1..], sep);
      SplitCons(s, sep);
      var rest := Split(s[1..], sep);
      SplitOfSuffix(s, |rest[0]| + |sep|, sep);
      assert Split(s, sep)[1..] == rest[1..];
    }
  }

  /** `Split` on a text that does not start with `sep`: its first character joins the first piece. */
  lemma SplitCons(s: string, sep: string)
    requires |sep| > 0 && |s| >= |sep| && s[..|sep|] != sep
    ensures Split(s, sep) == [[s[0]] + Split(s[1..], sep)[0]] + Split(s[1..], sep)[1..]
  {
  }

  /** Splitting a suffix of a suffix. */
  lemma SplitOfSuffix(s: string, k: nat, sep: string)
    requires |sep| > 0 && 1 + k <= |s|
    ensures Split(s[1..][k..], sep) == Split(s[1 + k..], sep)
  {
    assert s[1..][k..] == s[1 + k..];
  }

  /** Index of the first `c` in `s`, or `|s|` when there is none (`s.find(c)` with -1 read as `|s|`). */
  function IndexOf(s: string, c: char): (i: nat)
    ensures i <= |s| && c !in s[..i]
    ensures i < |s| ==> s[i] == c
  {
    if |s| == 0 then 0
    else if s[0] == c then 0
    else
      var j := IndexOf(s[1..], c);
      assert s[..1 + j] == [s[0]] + s[1..][..j];
      1 + j
  }

  /** The first piece of a split on one character is the text before its first occurrence. */
  lemma FirstPieceBeforeIndex(s: string, c: char)
    ensures Split(s, [c])[0] == s[..IndexOf(s, c)]
  {
    SplitFirst(s, [c]);
    var p := Split(s, [c])[0];
    var i := IndexOf(s, c);
    if i < |p| {
      assert IsPrefix([c], s[i..]);
    }
  }

  /** Joining the pieces of a split with the same separator gives back `s`. */
  lemma {:induction false} JoinSplit(s: string, sep: string)
    requires |sep| > 0
    ensures Join(Split(s, sep), sep) == s
    decreases |s|
  {
    if |s| < |sep| {
    } else if s[..|sep|] == sep {
      JoinSplit(s[|sep|..], sep);
      JoinSplitSep(s, sep);
    } else {
      JoinSplit(s[1..], sep);
      SplitCons(s, sep);
      JoinCons(s[0], Split(s[1..], sep), sep);
      assert s == [s[0]] + s[1..];
    }
  }

  /** The step of `JoinSplit` when `s` starts with `sep`. */
  lemma JoinSplitSep(s: string, sep: string)
    requires |sep| > 0 && |s| >= |sep| && s[..|sep|] == sep
    requires Join(Split(s[|sep|..], sep), sep) == s[|sep|..]
    ensures Join(Split(s, sep), sep) == s
  {
    var rest := Split(s[|sep|..], sep);
    var parts: seq<string> := [[]] + rest;
    assert Split(s, sep) == parts;
    assert |parts| > 1 && parts[0] == [] && parts[1..] == rest;
    assert Join(parts, sep) == [] + sep + Join(rest, sep);
    PrefixAndRest(s, |sep|);
  }

  /** A text is its prefix followed by the rest. */
  lemma PrefixAndRest(s: string, n: nat)
    requires n <= |s|
    ensures [] + s[..n] + s[n..] == s
  {
  }

  /**
    Splitting on one character gives one piece more than there are
    occurrences of it, and no piece contains it.
  */
  lemma {:induction false} SplitChar(s: string, c: char)
    ensures var parts := Split(s, [c]);
      && |parts| == multiset(s)[c] + 1
      && forall k | 0 <= k < |parts| :: c !in parts[k]
    decreases |s|
  {
    if |s| == 0 {
    } else {
      assert s == [s[0]] + s[1..];
      assert multiset(s) == multiset{s[0]} + multiset(s[1..]);
      SplitChar(s[1..], c);
      var rest := Split(s[1..], [c]);
      var parts := Split(s, [c]);
      if s[0] == c {
        assert s[..1] == [c];
        assert parts == [[]] + rest;
      } else {
        assert s[..1] != [c];
        assert parts == [[s[0]] + rest[0]] + rest[1..];
        forall k | 0 <= k < |parts| ensures c !in parts[k] {
          if k > 0 { assert parts[k] == rest[k]; }
        }
      }
    }
  }

  /**
    The first piece of `t.split(sep)`, cut again at the first `c`, is a
    prefix of `t` without `c`, followed in `t` by `c`, by `sep`, or by nothing.
  */
  lemma PieceBeforeChar(t: string, sep: string, c: char)
    requires |sep| > 0
    ensures PieceAt(t, 0, Split(Split(t, sep)[0], [c])[0], sep, c)
  {
    assert t[0..] == t;
    SplitFirst(t, sep);
    var q := Split(t, sep)[0];
    FirstPieceBeforeIndex(q, c);
    SplitChar(q, c);
    var code := Split(q, [c])[0];
    assert t[..|code|] == q[..|code|];
    if |code| == |q| && |Split(t, sep)| > 1 {
      assert IsPrefix(sep, t[|q|..]);
    }
  }

  /**
    `code` is read in `s` from `start`, holds no `c`, has no occurrence of
    `sep` starting inside it, and ends at the end of `s`, at a `c` or at an
    occurrence of `sep`.
  */
  predicate PieceAt(s: string, start: nat, code: string, sep: string, c: char) {
    && start + |code| <= |s| && IsPrefix(code, s[start..])
    && c !in code
    && (forall i | start <= i < start + |code| :: !IsPrefix(sep, s[i..]))
    && (|| start + |code| == |s|
        || s[start + |code|] == c
        || IsPrefix(sep, s[start + |code|..]))
  }

  /** `PieceAt` determines the piece: two pieces read at the same place are equal. */
  lemma PieceAtUnique(s: string, start: nat, a: string, b: string, sep: string, c: char)
    requires PieceAt(s, start, a, sep, c) && PieceAt(s, start, b, sep, c)
    ensures a == b
  {
    if |a| < |b| {
      assert false;
    } else if |b| < |a| {
      assert false;
    } else {
      assert a == s[start..][..|a|] == b;
    }
  }

  /** A piece read at the start of the suffix `s[start..]` is read in `s` at `start`. */
  lemma PieceInSuffix(s: string, start: nat, code: string, sep: string, c: char)
    requires start <= |s| && PieceAt(s[start..], 0, code, sep, c)
    ensures PieceAt(s, start, code, sep, c)
  {
    assert s[start..][0..] == s[start..];
    forall i | start <= i < start + |code| ensures !IsPrefix(sep, s[i..]) {
      assert s[start..][i - start..] == s[i..];
    }
    if start + |code| < |s| {
      assert s[start + |code|] == s[start..][|code|];
      assert s[start + |code|..] == s[start..][|code|..];
    }
  }

  /** When `sep` occurs in `s`, the second piece is the first piece of what follows the first `sep`. */
  lemma SecondPiece(s: string, sep: string)
    requires |sep| > 0 && |Split(s, sep)| > 1
    ensures |Split(s, sep)[0]| + |sep| <= |s|
    ensures Split(s, sep)[1] == Split(s[|Split(s, sep)[0]| + |sep|..], sep)[0]
  {
    SplitRest(s, sep);
    assert Split(s, sep)[1] == Split(s, sep)[1..][0];
  }

  /**
    The second piece of `s.split(sep)`, cut at the first `c`: the text after
    the first `sep`, up to the first `c`, the next `sep` or the end.
  */
  lemma SecondPieceBeforeChar(s: string, sep: string, c: char, start: nat, piece: string)
    requires |sep| > 0 && |Split(s, sep)| > 1
    requires start == |Split(s, sep)[0]| + |sep| && piece == Split(s, sep)[1]
    ensures start <= |s| && PieceAt(s, start, Split(piece, [c])[0], sep, c)
  {
    SecondPiece(s, sep);
    PieceAfter(s, start, piece, sep, c);
  }

  /** The first piece of `s[start..]`, cut at the first `c`, is read in `s` at `start`. */
  lemma PieceAfter(s: string, start: nat, piece: string, sep: string, c: char)
    requires |sep| > 0 && start <= |s| && piece == Split(s[start..], sep)[0]
    ensures PieceAt(s, start, Split(piece, [c])[0], sep, c)
  {
    PieceBeforeChar(s[start..], sep, c);
    PieceInSuffix(s, start, Split(piece, [c])[0], sep, c);
  }

  /** An occurrence of `q` is an occurrence of each prefix of `q`. */
  lemma ContainsPrefixOf(s: string, p: string, q: string)
    requires IsPrefix(p, q)
    ensures Contains(s, q) ==> Contains(s, p)
  {
    if Contains(s, q) {
      var i :| 0 <= i <= |s| && IsPrefix(q, s[i..]);
      assert s[i..][..|p|] == q[..|p|];
      assert IsPrefix(p, s[i..]);
    }
  }

  /** Splitting `x + [c] + y` where `x` has no `c` peels off `x`. */
  lemma SplitAtFirst(x: string, c: char, y: string)
    requires c !in x
    ensures Split(x + [c] + y, [c]) == [x] + Split(y, [c])
  {
    var s := x + [c] + y;
    FirstPieceBeforeIndex(s, c);
    assert s[..|x|] == x;
    SplitChar(s, c);
    assert multiset(s)[c] > 0;
    SplitRest(s, [c]);
    assert s[|x| + 1..] == y;
  }

  /** Joining pieces that do not contain `c` with `c`, then splitting on `c`, gives the pieces back. */
  lemma {:induction false} SplitJoin(parts: seq<string>, c: char)
    requires |parts| > 0
    requires forall k | 0 <= k < |parts| :: c !in parts[k]
    ensures Split(Join(parts, [c]), [c]) == parts
  {
    if |parts| == 1 {
      SplitChar(parts[0], c);
      SplitFirst(parts[0], [c]);
    } else {
      SplitJoin(parts[1..], c);
      SplitAtFirst(parts[0], c, Join(parts[1..], [c]));
      assert parts == [parts[0]] + parts[1..];
    }
  }

  /**
    `s.replace(pat, rep)` for a non-empty `pat`: every non-overlapping
    occurrence of `pat`, found from the left, becomes `rep`.
  */
  function Replace(s: string, pat: string, rep: string): string
    requires |pat| > 0
    decreases |s|
  {
    if |s| < |pat| then s
    else if s[..|pat|] == pat then rep + Replace(s[|pat|..], pat, rep)
    else [s[0]] + Replace(s[1..], pat, rep)
  }

  /** An occurrence of `pat` at the start is replaced and the rest is read after it. */
  lemma ReplaceAtStart(s: string, pat: string, rep: string)
    requires |pat| > 0 && IsPrefix(pat, s)
    ensures Replace(s, pat, rep) == rep + Replace(s[|pat|..], pat, rep)
  {
  }

  /** Python's identity `s.replace(p, r) == r.join(s.split(p))`. */
  lemma {:induction false} ReplaceIsJoinSplit(s: string, pat: string, rep: string)
    requires |pat| > 0
    ensures Replace(s, pat, rep) == Join(Split(s, pat), rep)
    decreases |s|
  {
    if |s| < |pat| {
    } else if s[..|pat|] == pat {
      ReplaceIsJoinSplit(s[|pat|..], pat, rep);
    } else {
      ReplaceIsJoinSplit(s[1..], pat, rep);
      JoinCons(s[0], Split(s[1..], pat), rep);
    }
  }

  /** Replacing a pattern that does not occur changes nothing. */
  lemma ReplaceAbsent(s: string, pat: string, rep: string)
    requires |pat| > 0
    ensures !Contains(s, pat) ==> Replace(s, pat, rep) == s
  {
    ReplaceIsJoinSplit(s, pat, rep);
    SplitMany(s, pat);
    SplitFirst(s, pat);
  }

  /** A character in neither `s` nor `rep` is not in the replaced string. */
  lemma {:induction false} ReplaceKeepsAbsent(s: string, pat: string, rep: string, c: char)
    requires |pat| > 0 && c !in rep
    ensures c !in s ==> c !in Replace(s, pat, rep)
    decreases |s|
  {
    if |s| < |pat| {
    } else if s[..|pat|] == pat {
      ReplaceKeepsAbsent(s[|pat|..], pat, rep, c);
    } else {
      ReplaceKeepsAbsent(s[1..], pat, rep, c);
    }
  }

  lemma PairConcat(x: string, y: string, a: char, b: char)
    ensures HasPair(x + y, a, b) ==>
            || HasPair(x, a, b) || HasPair(y, a, b)
            || (|x| > 0 && |y| > 0 && x[|x| - 1] == a && y[0] == b)
  {
    if HasPair(x + y, a, b) {
      var i :| 0 <= i < |x + y| - 1 && (x + y)[i] == a && (x + y)[i + 1] == b;
      if i + 1 < |x| {
        assert x[i] == a && x[i + 1] == b;
      } else if i >= |x| {
        assert y[i - |x|] == a && y[i - |x| + 1] == b;
      }
    }
  }

  lemma PairInSuffix(s: string, k: nat, a: char, b: char)
    requires k <= |s|
    ensures HasPair(s[k..], a, b) ==> HasPair(s, a, b)
  {
    if HasPair(s[k..], a, b) {
      var i :| 0 <= i < |s[k..]| - 1 && s[k..][i] == a && s[k..][i + 1] == b;
      assert s[i + k] == a && s[i + k + 1] == b;
    }
  }

  /** The first character of a replaced string comes from `rep` or from `s`. */
  lemma ReplaceFirst(s: string, pat: string, rep: string)
    requires |pat| > 0 && |rep| > 0
    ensures |Replace(s, pat, rep)| > 0 ==>
            || Replace(s, pat, rep)[0] == rep[0]
            || (|s| > 0 && Replace(s, pat, rep)[0] == s[0] && !IsPrefix(pat, s))
  {
  }

  /**
    Replacing the two-character pattern `[a, b]` by a `rep` that holds no
    `b` and does not end in `c` leaves no `[c, b]` behind, provided the
    input had none or `c` is `a` itself.
  */
  lemma {:induction false} ReplaceClearsPair(s: string, a: char, b: char, rep: string, c: char)
    requires |rep| > 0 && b !in rep && rep[|rep| - 1] != c
    requires c == a || !HasPair(s, c, b)
    ensures !HasPair(Replace(s, [a, b], rep), c, b)
    decreases |s|
  {
    var pat := [a, b];
    if |s| < 2 {
    } else if s[..2] == pat {
      var t := s[2..];
      PairInSuffix(s, 2, c, b);
      ReplaceClearsPair(t, a, b, rep, c);
      PairConcat(rep, Replace(t, pat, rep), c, b);
    } else {
      var t := s[1..];
      PairInSuffix(s, 1, c, b);
      ReplaceClearsPair(t, a, b, rep, c);
      PairConcat([s[0]], Replace(t, pat, rep), c, b);
      ReplaceFirst(t, pat, rep);
      assert s[..2] == [s[0], t[0]];
    }
  }

  /** Replacing one character works piece by piece. */
  lemma {:induction false} ReplaceCharConcat(x: string, y: string, a: char, b: string)
    ensures Replace(x + y, [a], b) == Replace(x, [a], b) + Replace(y, [a], b)
    decreases |x|
  {
    if |x| == 0 {
      assert x + y == y;
    } else {
      assert (x + y)[1..] == x[1..] + y;
      ReplaceCharConcat(x[1..], y, a, b);
    }
  }

  /** A character that does not occur is not replaced. */
  lemma {:induction false} ReplaceCharAbsent(s: string, a: char, b: string)
    requires a !in s
    ensures Replace(s, [a], b) == s
    decreases |s|
  {
    if |s| > 0 {
      ReplaceCharAbsent(s[1..], a, b);
    }
  }
}
