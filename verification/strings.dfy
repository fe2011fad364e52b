/**
  Substring search and Rust-style `str::replace`, on sequences; the model uses them on `seq<char>`.

  `ReplaceAll` scans left to right and replaces non-overlapping occurrences,
  as Rust's `replace` does via `match_indices`. An empty pattern matches at
  every character boundary, so the replacement is inserted before every
  character and once at the end. `Split`/`Join` give an independent,
  search-based reference definition of the same rewrite.
 */
module Strings {
  import opened Wrappers

  /** `pat` occurs in `s` starting at index `i`. */
  predicate OccursAt<T(==)>(s: seq<T>, pat: seq<T>, i: nat) {
    i + |pat| <= |s| && s[i..i + |pat|] == pat
  }

  /** `pat` occurs somewhere in `s`. */
  predicate Contains<T(==)>(s: seq<T>, pat: seq<T>) {
    exists i: nat | i <= |s| :: OccursAt(s, pat, i)
  }

  /** The first occurrence of `pat` in `s` at or after `from`, if any. */
  function IndexOf<T(==)>(s: seq<T>, pat: seq<T>, from: nat): (r: Option<nat>)
    ensures r.Some? ==> from <= r.value && OccursAt(s, pat, r.value)
    ensures r.Some? ==> forall k: nat :: from <= k < r.value ==> !OccursAt(s, pat, k)
    ensures r.None? ==> forall k: nat :: from <= k ==> !OccursAt(s, pat, k)
    decreases |s| - from
  {
    if |s| < from + |pat| then None
    else if OccursAt(s, pat, from) then Some(from)
    else IndexOf(s, pat, from + 1)
  }

  /** What Rust's `replace` does with an empty pattern: `rep` before every character and at the end. */
  function InsertAround<T>(s: seq<T>, rep: seq<T>): (r: seq<T>)
    ensures |r| == |s| + (|s| + 1) * |rep|
  {
    if |s| == 0 then rep else rep + [s[0]] + InsertAround(s[1..], rep)
  }

  /** Every non-overlapping occurrence of `pat` in `s`, scanned left to right, replaced by `rep`. */
  function ReplaceAll<T(==)>(s: seq<T>, pat: seq<T>, rep: seq<T>): seq<T>
    decreases |s|
  {
    if |pat| == 0 then InsertAround(s, rep)
    else if |s| < |pat| then s
    else if s[..|pat|] == pat then rep + ReplaceAll(s[|pat|..], pat, rep)
    else [s[0]] + ReplaceAll(s[1..], pat, rep)
  }

  /** The number of places `ReplaceAll` rewrites. */
  function Count<T(==)>(s: seq<T>, pat: seq<T>): nat
    decreases |s|
  {
    if |pat| == 0 then |s| + 1
    else if |s| < |pat| then 0
    else if s[..|pat|] == pat then 1 + Count(s[|pat|..], pat)
    else Count(s[1..], pat)
  }

  /** The pieces glued together with `sep` between neighbours. */
  function Join<T>(pieces: seq<seq<T>>, sep: seq<T>): seq<T> {
    if |pieces| == 0 then []
    else if |pieces| == 1 then pieces[0]
    else pieces[0] + sep + Join(pieces[1..], sep)
  }

  /** `s` cut at every leftmost non-overlapping occurrence of `pat`, found by repeated search. */
  function Split<T(==)>(s: seq<T>, pat: seq<T>): (pieces: seq<seq<T>>)
    requires |pat| > 0
    ensures |pieces| > 0
    decreases |s|
  {
    match IndexOf(s, pat, 0)
    case None => [s]
    case Some(i) => [s[..i]] + Split(s[i + |pat|..], pat)
  }

  lemma OccursInTail<T>(s: seq<T>, pat: seq<T>, k: nat)
    requires |s| > 0 && OccursAt(s[1..], pat, k)
    ensures OccursAt(s, pat, k + 1)
  {
    assert s[1..][k..k + |pat|] == s[k + 1..k + 1 + |pat|];
  }

  lemma OccursInSuffix<T>(s: seq<T>, pat: seq<T>, n: nat, k: nat)
    requires n <= |s| && OccursAt(s[n..], pat, k)
    ensures OccursAt(s, pat, n + k)
  {
    assert s[n..][k..k + |pat|] == s[n + k..n + k + |pat|];
  }

  /** A text lacking the first character of a pattern does not contain the pattern. */
  lemma AbsentWithoutFirstChar<T>(s: seq<T>, pat: seq<T>)
    requires |pat| > 0 && forall i :: 0 <= i < |s| ==> s[i] != pat[0]
    ensures !Contains(s, pat)
  {
    forall k: nat ensures !OccursAt(s, pat, k) {
      if k + |pat| <= |s| {
        assert s[k..k + |pat|][0] == s[k];
      }
    }
  }

  /** Text without any occurrence of the pattern comes back unchanged. */
  lemma {:induction false} ReplaceAllAbsent<T>(s: seq<T>, pat: seq<T>, rep: seq<T>)
    ensures !Contains(s, pat) ==> ReplaceAll(s, pat, rep) == s
    decreases |s|
  {
    if |pat| == 0 || (|s| >= |pat| && s[..|pat|] == pat) {
      assert OccursAt(s, pat, 0);
    } else if |s| < |pat| {
    } else if !Contains(s, pat) {
      forall k: nat | OccursAt(s[1..], pat, k) ensures OccursAt(s, pat, k + 1) {
        OccursInTail(s, pat, k);
      }
      ReplaceAllAbsent(s[1..], pat, rep);
      assert [s[0]] + s[1..] == s;
    }
  }

  /** Replacing a pattern by itself is the identity. */
  lemma {:induction false} ReplaceAllSelf<T>(s: seq<T>, pat: seq<T>)
    ensures ReplaceAll(s, pat, pat) == s
    decreases |s|
  {
    if |pat| == 0 {
      InsertAroundEmpty(s);
    } else if |s| < |pat| {
    } else if s[..|pat|] == pat {
      ReplaceAllSelf(s[|pat|..], pat);
      assert s[..|pat|] + s[|pat|..] == s;
    } else {
      ReplaceAllSelf(s[1..], pat);
      assert [s[0]] + s[1..] == s;
    }
  }

  lemma {:induction false} InsertAroundEmpty<T>(s: seq<T>)
    ensures InsertAround(s, []) == s
    decreases |s|
  {
    if |s| > 0 {
      InsertAroundEmpty(s[1..]);
      assert [s[0]] + s[1..] == s;
    }
  }

  /** Each rewrite changes the length by the difference between replacement and pattern. */
  lemma {:induction false} ReplaceAllLength<T>(s: seq<T>, pat: seq<T>, rep: seq<T>)
    ensures |ReplaceAll(s, pat, rep)| == |s| + Count(s, pat) * (|rep| - |pat|)
    decreases |s|
  {
    if |pat| == 0 {
    } else if |s| < |pat| {
    } else if s[..|pat|] == pat {
      var rest := s[|pat|..];
      ReplaceAllLength(rest, pat, rep);
      assert ReplaceAll(s, pat, rep) == rep + ReplaceAll(rest, pat, rep);
      assert Count(s, pat) == 1 + Count(rest, pat);
      MulStep(Count(rest, pat), |rep| - |pat|);
    } else {
      ReplaceAllLength(s[1..], pat, rep);
    }
  }

  /** A one-element pattern that occurs exactly once is replaced there and nowhere else. */
  lemma ReplaceSingleOccurrence<T>(pre: seq<T>, x: T, post: seq<T>, rep: seq<T>)
    requires forall k :: 0 <= k < |pre| ==> pre[k] != x
    requires forall k :: 0 <= k < |post| ==> post[k] != x
    ensures ReplaceAll(pre + [x] + post, [x], rep) == pre + rep + post
  {
    var s := pre + [x] + post;
    OnlyOccurrence(pre, x, post);
    ReplaceAllAtFirst(s, [x], rep, |pre|);
    assert s[..|pre|] == pre && s[|pre| + 1..] == post;
    AbsentElement(post, x);
    ReplaceAllAbsent(post, [x], rep);
  }

  lemma OnlyOccurrence<T>(pre: seq<T>, x: T, post: seq<T>)
    requires forall k :: 0 <= k < |pre| ==> pre[k] != x
    ensures OccursAt(pre + [x] + post, [x], |pre|)
    ensures forall k: nat :: k < |pre| ==> !OccursAt(pre + [x] + post, [x], k)
  {
    var s := pre + [x] + post;
    assert s[|pre|..|pre| + 1] == [x];
    forall k: nat | k < |pre| ensures !OccursAt(s, [x], k) {
      assert s[k..k + 1][0] == pre[k];
    }
  }

  lemma AbsentElement<T>(s: seq<T>, x: T)
    requires forall k :: 0 <= k < |s| ==> s[k] != x
    ensures !Contains(s, [x])
  {
    forall k: nat | k <= |s| ensures !OccursAt(s, [x], k) {
      if k + 1 <= |s| {
        assert s[k..k + 1][0] == s[k];
      }
    }
  }

  /** The elements of `a` appear in `b` in the same order: `b` is `a` with elements inserted. */
  predicate Subsequence<T(==)>(a: seq<T>, b: seq<T>)
    decreases |b|
  {
    |a| == 0 || (|b| > 0 && ((a[0] == b[0] && Subsequence(a[1..], b[1..])) || Subsequence(a, b[1..])))
  }

  lemma {:induction false} SubsequenceSelf<T>(a: seq<T>)
    ensures Subsequence(a, a)
    decreases |a|
  {
    if |a| > 0 {
      SubsequenceSelf(a[1..]);
    }
  }

  /** Inserting in front keeps a subsequence. */
  lemma {:induction false} SubsequenceSkip<T>(a: seq<T>, x: seq<T>, b: seq<T>)
    requires Subsequence(a, b)
    ensures Subsequence(a, x + b)
    decreases |x|
  {
    if |x| == 0 {
      assert x + b == b;
    } else {
      SubsequenceSkip(a, x[1..], b);
      assert (x + b)[1..] == x[1..] + b;
    }
  }

  /** A common prefix keeps a subsequence. */
  lemma {:induction false} SubsequencePrefix<T>(p: seq<T>, a: seq<T>, b: seq<T>)
    requires Subsequence(a, b)
    ensures Subsequence(p + a, p + b)
    decreases |p|
  {
    if |p| == 0 {
      assert p + a == a && p + b == b;
    } else {
      SubsequencePrefix(p[1..], a, b);
      assert (p + a)[0] == (p + b)[0];
      assert (p + a)[1..] == p[1..] + a && (p + b)[1..] == p[1..] + b;
    }
  }

  lemma {:induction false} SubsequenceTrans<T>(a: seq<T>, b: seq<T>, c: seq<T>)
    requires Subsequence(a, b) && Subsequence(b, c)
    ensures Subsequence(a, c)
    decreases |c|
  {
    if |a| > 0 {
      if Subsequence(b, c[1..]) {
        SubsequenceTrans(a, b, c[1..]);
      } else if Subsequence(a, b[1..]) {
        SubsequenceTrans(a, b[1..], c[1..]);
      } else {
        SubsequenceTrans(a[1..], b[1..], c[1..]);
      }
    }
  }

  lemma {:induction false} InsertAroundKeepsText<T>(s: seq<T>, rep: seq<T>)
    ensures Subsequence(s, InsertAround(s, rep))
    decreases |s|
  {
    if |s| > 0 {
      InsertAroundKeepsText(s[1..], rep);
      SubsequencePrefix([s[0]], s[1..], InsertAround(s[1..], rep));
      assert [s[0]] + s[1..] == s;
      SubsequenceSkip(s, rep, [s[0]] + InsertAround(s[1..], rep));
      assert rep + [s[0]] + InsertAround(s[1..], rep) == rep + ([s[0]] + InsertAround(s[1..], rep));
    }
  }

  /** A replacement that starts with the pattern only inserts: the text is a subsequence of the result. */
  lemma {:induction false} ReplaceAllKeepsText<T>(s: seq<T>, pat: seq<T>, extra: seq<T>)
    ensures Subsequence(s, ReplaceAll(s, pat, pat + extra))
    decreases |s|
  {
    var rep := pat + extra;
    if |pat| == 0 {
      assert rep == extra;
      InsertAroundKeepsText(s, extra);
    } else if |s| < |pat| {
      SubsequenceSelf(s);
    } else if s[..|pat|] == pat {
      var rest := s[|pat|..];
      var r := ReplaceAll(rest, pat, rep);
      ReplaceAllKeepsText(rest, pat, extra);
      SubsequenceSkip(rest, extra, r);
      SubsequencePrefix(pat, rest, extra + r);
      assert s == pat + rest;
      assert rep + r == pat + (extra + r);
    } else {
      var r := ReplaceAll(s[1..], pat, rep);
      ReplaceAllKeepsText(s[1..], pat, extra);
      SubsequencePrefix([s[0]], s[1..], r);
      assert [s[0]] + s[1..] == s;
    }
  }

  /** A replacement at least as long as the pattern never shortens the text. */
  lemma ReplaceAllGrows<T>(s: seq<T>, pat: seq<T>, rep: seq<T>)
    ensures |rep| >= |pat| ==> |ReplaceAll(s, pat, rep)| >= |s|
  {
    ReplaceAllLength(s, pat, rep);
  }

  lemma MulStep(c: int, d: int)
    ensures (1 + c) * d == d + c * d
  {
  }

  /** `ReplaceAll` keeps `s[..i]`, rewrites the occurrence at `i`, and continues after it. */
  ghost predicate SplitsAt<T>(s: seq<T>, pat: seq<T>, rep: seq<T>, i: nat)
    requires i + |pat| <= |s|
  {
    ReplaceAll(s, pat, rep) == s[..i] + rep + ReplaceAll(s[i + |pat|..], pat, rep)
  }

  /** The scan keeps everything before the first occurrence, rewrites it, and continues after it. */
  lemma ReplaceAllAtFirst<T>(s: seq<T>, pat: seq<T>, rep: seq<T>, i: nat)
    requires |pat| > 0 && OccursAt(s, pat, i)
    requires forall k: nat :: k < i ==> !OccursAt(s, pat, k)
    ensures ReplaceAll(s, pat, rep) == s[..i] + rep + ReplaceAll(s[i + |pat|..], pat, rep)
  {
    SplitsAtFirst(s, pat, rep, i);
  }

  lemma {:induction false} SplitsAtFirst<T>(s: seq<T>, pat: seq<T>, rep: seq<T>, i: nat)
    requires |pat| > 0 && OccursAt(s, pat, i)
    requires forall k: nat :: k < i ==> !OccursAt(s, pat, k)
    ensures SplitsAt(s, pat, rep, i)
    decreases i
  {
    if i == 0 {
      var after := ReplaceAll(s[|pat|..], pat, rep);
      assert s[..|pat|] == pat;
      calc {
        ReplaceAll(s, pat, rep);
        rep + after;
        { assert s[..0] == []; }
        s[..0] + rep + after;
      }
    } else {
      assert !OccursAt(s, pat, 0);
      FirstOccurrenceInTail(s, pat, i);
      SplitsAtFirst(s[1..], pat, rep, i - 1);
      AtFirstStep(s, pat, rep, i);
    }
  }

  /** One step of `SplitsAtFirst`: a first character that starts no occurrence is kept. */
  lemma AtFirstStep<T>(s: seq<T>, pat: seq<T>, rep: seq<T>, i: nat)
    requires |pat| > 0 && 0 < i && i + |pat| <= |s| && !OccursAt(s, pat, 0)
    requires SplitsAt(s[1..], pat, rep, i - 1)
    ensures SplitsAt(s, pat, rep, i)
  {
    var t := s[1..];
    var after := ReplaceAll(s[i + |pat|..], pat, rep);
    assert s[..|pat|] != pat by { assert s[0..|pat|] == s[..|pat|]; }
    assert t[i - 1 + |pat|..] == s[i + |pat|..] by { DropFirstThenSuffix(s, i + |pat|); }
    calc {
      ReplaceAll(s, pat, rep);
      [s[0]] + ReplaceAll(t, pat, rep);
      [s[0]] + (t[..i - 1] + rep + after);
      { ConcatRegroup([s[0]], t[..i - 1], rep, after); }
      ([s[0]] + t[..i - 1]) + rep + after;
      { FirstThenPrefix(s, i); }
      s[..i] + rep + after;
    }
  }

  /** Dropping the first character moves a first occurrence one place left. */
  lemma FirstOccurrenceInTail<T>(s: seq<T>, pat: seq<T>, i: nat)
    requires 0 < i && OccursAt(s, pat, i)
    requires forall k: nat :: k < i ==> !OccursAt(s, pat, k)
    ensures OccursAt(s[1..], pat, i - 1)
    ensures forall k: nat :: k < i - 1 ==> !OccursAt(s[1..], pat, k)
  {
    assert s[1..][i - 1..i - 1 + |pat|] == s[i..i + |pat|];
    forall k: nat | k < i - 1 ensures !OccursAt(s[1..], pat, k) {
      if OccursAt(s[1..], pat, k) {
        OccursInTail(s, pat, k);
      }
    }
  }

  lemma DropFirstThenSuffix<T>(s: seq<T>, n: nat)
    requires 1 <= n <= |s|
    ensures s[1..][n - 1..] == s[n..]
  {
  }

  lemma FirstThenPrefix<T>(s: seq<T>, n: nat)
    requires 1 <= n <= |s|
    ensures [s[0]] + s[1..][..n - 1] == s[..n]
  {
  }

  lemma ConcatRegroup<T>(a: seq<T>, b: seq<T>, c: seq<T>, d: seq<T>)
    ensures a + (b + c + d) == (a + b) + c + d
  {
  }

  /** Rust's scanning `replace` agrees with cutting at each found occurrence and gluing with `rep`. */
  lemma {:induction false} ReplaceAllIsJoinOfSplit<T>(s: seq<T>, pat: seq<T>, rep: seq<T>)
    requires |pat| > 0
    ensures ReplaceAll(s, pat, rep) == Join(Split(s, pat), rep)
    decreases |s|
  {
    match IndexOf(s, pat, 0)
    case None =>
      ReplaceAllAbsent(s, pat, rep);
    case Some(i) =>
      ReplaceAllAtFirst(s, pat, rep, i);
      var rest := s[i + |pat|..];
      ReplaceAllIsJoinOfSplit(rest, pat, rep);
      var pieces := [s[..i]] + Split(rest, pat);
      assert pieces[1..] == Split(rest, pat);
  }

  /** Splitting and re-joining with the pattern gives back the text. */
  lemma SplitJoinRoundTrip<T>(s: seq<T>, pat: seq<T>)
    requires |pat| > 0
    ensures Join(Split(s, pat), pat) == s
  {
    ReplaceAllIsJoinOfSplit(s, pat, pat);
    ReplaceAllSelf(s, pat);
  }
  /** The sum of the pieces' lengths. */
  function TotalLength<T>(pieces: seq<seq<T>>): nat {
    if |pieces| == 0 then 0 else |pieces[0]| + TotalLength(pieces[1..])
  }

  lemma {:induction false} JoinLength<T>(pieces: seq<seq<T>>, sep: seq<T>)
    requires |pieces| > 0
    ensures |Join(pieces, sep)| == TotalLength(pieces) + (|pieces| - 1) * |sep|
  {
    if |pieces| > 1 {
      JoinLength(pieces[1..], sep);
      MulStep(|pieces| - 2, |sep|);
    }
  }

  /** The arithmetic of `CountIsSplitOccurrences`: doubling the pattern adds `p` per occurrence to both sides. */
  lemma CountArithmetic(c: int, k: int, p: int, total: int, len1: int, len2: int)
    requires p > 0
    requires len1 == total + k * p && len2 == total + k * (p + p)
    requires len2 == len1 + c * ((p + p) - p)
    ensures c == k
  {
    assert k * (p + p) == k * p + k * p;
    assert c * ((p + p) - p) == c * p;
    assert (c - k) * p == c * p - k * p;
  }

  /**
    `Count`, the number of places the scan rewrites, is the number of
    occurrences the independent search finds: one fewer than the pieces of
    `Split`.
   */
  lemma CountIsSplitOccurrences<T>(s: seq<T>, pat: seq<T>)
    requires |pat| > 0
    ensures Count(s, pat) == |Split(s, pat)| - 1
  {
    var pieces, rep := Split(s, pat), pat + pat;
    SplitJoinRoundTrip(s, pat);
    ReplaceAllIsJoinOfSplit(s, pat, rep);
    ReplaceAllLength(s, pat, rep);
    JoinLength(pieces, pat);
    JoinLength(pieces, rep);
    CountArithmetic(Count(s, pat), |pieces| - 1, |pat|, TotalLength(pieces), |s|, |ReplaceAll(s, pat, rep)|);
  }


  /** The text before the first occurrence does not contain the pattern. */
  lemma PrefixBeforeFirstAvoids<T>(s: seq<T>, pat: seq<T>, i: nat)
    requires |pat| > 0 && i <= |s|
    requires forall k: nat :: k < i ==> !OccursAt(s, pat, k)
    ensures !Contains(s[..i], pat)
  {
    forall k: nat ensures !OccursAt(s[..i], pat, k) {
      if k + |pat| <= i {
        assert s[..i][k..k + |pat|] == s[k..k + |pat|];
        assert !OccursAt(s, pat, k);
      }
    }
  }

  /** No piece of a split contains the pattern: the cuts are at the leftmost occurrences. */
  lemma {:induction false} SplitPiecesAvoidPattern<T>(s: seq<T>, pat: seq<T>)
    requires |pat| > 0
    ensures forall j :: 0 <= j < |Split(s, pat)| ==> !Contains(Split(s, pat)[j], pat)
    decreases |s|
  {
    match IndexOf(s, pat, 0)
    case None =>
      assert Split(s, pat) == [s];
    case Some(i) =>
      var rest := s[i + |pat|..];
      SplitPiecesAvoidPattern(rest, pat);
      PrefixBeforeFirstAvoids(s, pat, i);
      var tail := Split(rest, pat);
      assert Split(s, pat) == [s[..i]] + tail;
      forall j | 0 <= j < 1 + |tail| ensures !Contains(([s[..i]] + tail)[j], pat) {
        if j > 0 {
          assert ([s[..i]] + tail)[j] == tail[j - 1];
        }
      }
  }

  /** A rewrite that happens leaves the replacement text in the result. */
  lemma ReplaceAllShowsReplacement<T>(s: seq<T>, pat: seq<T>, rep: seq<T>)
    requires |pat| > 0 && Contains(s, pat)
    ensures Contains(ReplaceAll(s, pat, rep), rep)
  {
    var i :| OccursAt(s, pat, i);
    var first := IndexOf(s, pat, 0);
    ReplaceAllAtFirst(s, pat, rep, first.value);
    var r := ReplaceAll(s, pat, rep);
    var n := first.value;
    assert r[n..n + |rep|] == rep;
    assert OccursAt(r, rep, n);
  }
}
