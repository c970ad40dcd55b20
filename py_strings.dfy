/** The Python `str` operations that `identify_tars` chains together,
    written out over `seq<char>`, with an independent reference
    definition of "the segments of a path" (`Split`, `Intercalate`)
    and the lemmas that connect the two. */
module PyStrings {

  /** `s.startswith(p)`: a character-level prefix test. */
  predicate StartsWith(s: string, p: string) {
    |p| <= |s| && s[..|p|] == p
  }

  /** `s.startswith(p)` holds exactly when `p` agrees with the first
      `|p|` characters of `s`. */
  lemma StartsWithCharwise(s: string, p: string)
    ensures StartsWith(s, p) <==> |p| <= |s| && forall i :: 0 <= i < |p| ==> s[i] == p[i]
  {
  }

  /** `pat` occurs in `s` at position `i`. */
  predicate OccursAt(s: string, pat: string, i: int) {
    0 <= i && i + |pat| <= |s| && s[i..i + |pat|] == pat
  }

  /** `pat` occurs somewhere in `s`. */
  predicate Occurs(s: string, pat: string) {
    exists i :: 0 <= i <= |s| && OccursAt(s, pat, i)
  }

  lemma OccursAtStart(s: string, pat: string)
    requires |pat| <= |s| && s[..|pat|] == pat
    ensures Occurs(s, pat)
  {
    assert OccursAt(s, pat, 0);
  }

  lemma OccursInTail(s: string, pat: string)
    requires |s| >= 1
    ensures Occurs(s[1..], pat) ==> Occurs(s, pat)
  {
    if Occurs(s[1..], pat) {
      var i :| 0 <= i <= |s[1..]| && OccursAt(s[1..], pat, i);
      assert s[i + 1..i + 1 + |pat|] == s[1..][i..i + |pat|];
      assert OccursAt(s, pat, i + 1);
    }
  }

  /** `s.replace(pat, repl)` for a non-empty pattern: every occurrence is
      replaced, scanning left to right without overlaps. */
  function ReplaceAll(s: string, pat: string, repl: string): (r: string)
    requires |pat| > 0
    ensures |repl| <= |pat| ==> |r| <= |s|
    ensures !Occurs(s, pat) ==> r == s
    decreases |s|
  {
    if |s| < |pat| then s
    else if s[..|pat|] == pat then
      OccursAtStart(s, pat);
      repl + ReplaceAll(s[|pat|..], pat, repl)
    else
      OccursInTail(s, pat);
      assert [s[0]] + s[1..] == s;
      [s[0]] + ReplaceAll(s[1..], pat, repl)
  }

  /** Position of the last `c` in `s`, or -1 when there is none. */
  function LastIndex(s: string, c: char): (i: int)
    ensures -1 <= i < |s|
    ensures 0 <= i ==> s[i] == c
    ensures forall j :: i < j < |s| ==> s[j] != c
  {
    if |s| == 0 then -1
    else if s[|s| - 1] == c then |s| - 1
    else LastIndex(s[..|s| - 1], c)
  }

  /** `s.rsplit(c, maxsplit)`: at most `maxsplit` splits, from the right. */
  function RSplit(s: string, c: char, maxsplit: nat): (r: seq<string>)
    ensures 1 <= |r| <= maxsplit + 1
    ensures forall k :: 1 <= k < |r| ==> c !in r[k]
    decreases |s|
  {
    var i := LastIndex(s, c);
    if maxsplit == 0 || i < 0 then [s]
    else RSplit(s[..i], c, maxsplit - 1) + [s[i + 1..]]
  }

  /** `xs[-n:]` for `n >= 1`: the last `n` items, or all of them. */
  function LastN<T>(xs: seq<T>, n: nat): (r: seq<T>)
    requires n >= 1
    ensures |r| == if |xs| <= n then |xs| else n
    ensures |r| <= |xs| && r == xs[|xs| - |r|..]
  {
    if |xs| <= n then xs else xs[|xs| - n..]
  }

  /** `"".join(xs)`. */
  function Concat(xs: seq<string>): string {
    if |xs| == 0 then [] else Concat(xs[..|xs| - 1]) + xs[|xs| - 1]
  }

  /** `sep.join(xs)`. */
  function Intercalate(xs: seq<string>, sep: string): string {
    if |xs| == 0 then []
    else if |xs| == 1 then xs[0]
    else Intercalate(xs[..|xs| - 1], sep) + sep + xs[|xs| - 1]
  }

  /** The full list of `c`-separated segments of `s` (`s.split(c)`),
      the reference against which `RSplit` and `ReplaceAll` are proved. */
  function Split(s: string, c: char): (r: seq<string>)
    ensures |r| >= 1
    decreases |s|
  {
    var i := LastIndex(s, c);
    if i < 0 then [s] else Split(s[..i], c) + [s[i + 1..]]
  }

  /** Each item but the last gets `tok` appended. */
  function Marked(xs: seq<string>, tok: string): (r: seq<string>)
  {
    seq(|xs|, i requires 0 <= i < |xs| => if i < |xs| - 1 then xs[i] + tok else xs[i])
  }

  // ---------------------------------------------------------------------
  // Split and Intercalate are inverse to each other

  lemma {:induction false} SplitSegmentsFree(s: string, c: char)
    ensures forall k :: 0 <= k < |Split(s, c)| ==> c !in Split(s, c)[k]
    decreases |s|
  {
    var i := LastIndex(s, c);
    if i >= 0 {
      SplitSegmentsFree(s[..i], c);
    }
  }

  /** Joining the segments with the separator gives back the string. */
  lemma {:induction false} SplitRoundTrip(s: string, c: char)
    ensures Intercalate(Split(s, c), [c]) == s
    decreases |s|
  {
    var i := LastIndex(s, c);
    if i >= 0 {
      SplitRoundTrip(s[..i], c);
      var ys := Split(s[..i], c);
      var zs := ys + [s[i + 1..]];
      assert zs[..|zs| - 1] == ys;
      assert s == s[..i] + [c] + s[i + 1..];
    }
  }

  /** Splitting a join of separator-free segments gives the segments back. */
  lemma {:induction false} IntercalateRoundTrip(xs: seq<string>, c: char)
    requires |xs| >= 1
    requires forall k :: 0 <= k < |xs| ==> c !in xs[k]
    ensures Split(Intercalate(xs, [c]), c) == xs
    decreases |xs|
  {
    if |xs| > 1 {
      var ys := xs[..|xs| - 1];
      IntercalateRoundTrip(ys, c);
      SplitAfterLast(Intercalate(ys, [c]), c, xs[|xs| - 1]);
      assert ys + [xs[|xs| - 1]] == xs;
    }
  }

  /** `LastIndex` is determined by its contract. */
  lemma LastIndexIs(s: string, c: char, k: int)
    requires -1 <= k < |s|
    requires 0 <= k ==> s[k] == c
    requires forall j :: k < j < |s| ==> s[j] != c
    ensures LastIndex(s, c) == k
  {
  }

  /** With `t` free of `c`, the separator before `t` is the last one. */
  lemma SplitAfterLast(p: string, c: char, t: string)
    requires c !in t
    ensures Split(p + [c] + t, c) == Split(p, c) + [t]
  {
    var s := p + [c] + t;
    assert forall j :: |p| < j < |s| ==> s[j] == t[j - |p| - 1];
    LastIndexIs(s, c, |p|);
    assert s[..|p|] == p;
    assert s[|p| + 1..] == t;
  }

  /** Appending text free of `c` does not move the last `c`. */
  lemma LastIndexAppendFree(p: string, c: char, u: string)
    requires c !in u
    ensures LastIndex(p + u, c) == LastIndex(p, c)
  {
    var s, i := p + u, LastIndex(p, c);
    forall j | i < j < |s|
      ensures s[j] != c
    {
      if j < |p| {
        assert s[j] == p[j];
      } else {
        assert s[j] == u[j - |p|];
      }
    }
    if i >= 0 {
      assert s[i] == p[i];
    }
    LastIndexIs(s, c, i);
  }

  /** Appending separator-free text extends the last segment. */
  lemma SplitAppendFree(p: string, c: char, u: string)
    requires c !in u
    ensures var xs := Split(p, c);
      Split(p + u, c) == xs[..|xs| - 1] + [xs[|xs| - 1] + u]
  {
    LastIndexAppendFree(p, c, u);
    var i := LastIndex(p, c);
    if i >= 0 {
      SplitAppendAfter(p, c, u, i);
    } else {
      assert Split(p, c) == [p];
    }
  }

  lemma SplitAppendAfter(p: string, c: char, u: string, i: int)
    requires 0 <= i == LastIndex(p, c) == LastIndex(p + u, c)
    ensures var xs := Split(p, c);
      Split(p + u, c) == xs[..|xs| - 1] + [xs[|xs| - 1] + u]
  {
    var s := p + u;
    var ys, t := Split(p[..i], c), p[i + 1..];
    assert Split(p, c) == ys + [t];
    assert s[..i] == p[..i];
    assert s[i + 1..] == t + u;
    assert Split(s, c) == ys + [t + u];
    assert (ys + [t])[..|ys|] == ys;
  }

  // ---------------------------------------------------------------------
  // ReplaceAll with a one-character pattern

  lemma {:induction false} ReplaceAllAbsent(s: string, c: char, repl: string)
    requires c !in s
    ensures ReplaceAll(s, [c], repl) == s
    decreases |s|
  {
    if |s| >= 1 {
      assert s[..1] != [c] by { assert s[0] != c; }
      ReplaceAllAbsent(s[1..], c, repl);
      assert [s[0]] + s[1..] == s;
    }
  }

  /** Replacing a single character distributes over concatenation. */
  lemma {:induction false} ReplaceAllConcat(a: string, b: string, c: char, repl: string)
    ensures ReplaceAll(a + b, [c], repl) == ReplaceAll(a, [c], repl) + ReplaceAll(b, [c], repl)
    decreases |a|
  {
    if |a| == 0 {
      assert a + b == b;
    } else {
      var s := a + b;
      assert s[..1] == a[..1];
      assert s[1..] == a[1..] + b;
      assert s[0] == a[0];
      ReplaceAllConcat(a[1..], b, c, repl);
    }
  }

  /** Python's `s.replace(c, r) == r.join(s.split(c))`. */
  lemma {:induction false} ReplaceCharIsJoinOfSplit(s: string, c: char, repl: string)
    ensures ReplaceAll(s, [c], repl) == Intercalate(Split(s, c), repl)
    decreases |s|
  {
    var i := LastIndex(s, c);
    if i < 0 {
      ReplaceAllAbsent(s, c, repl);
    } else {
      var p, t := s[..i], s[i + 1..];
      assert s == p + [c] + t;
      ReplaceAroundLast(p, c, t, repl);
      ReplaceCharIsJoinOfSplit(p, c, repl);
      var ys := Split(p, c);
      var zs := ys + [t];
      assert zs[..|zs| - 1] == ys;
    }
  }

  /** Replacing the separators of `p + [c] + t`, with `t` free of `c`. */
  lemma ReplaceAroundLast(p: string, c: char, t: string, repl: string)
    requires c !in t
    ensures ReplaceAll(p + [c] + t, [c], repl) == ReplaceAll(p, [c], repl) + repl + t
  {
    calc {
      ReplaceAll(p + [c] + t, [c], repl);
      { assert p + [c] + t == p + ([c] + t); }
      ReplaceAll(p + ([c] + t), [c], repl);
      { ReplaceAllConcat(p, [c] + t, c, repl); }
      ReplaceAll(p, [c], repl) + ReplaceAll([c] + t, [c], repl);
      { ReplaceOfSeparatorFirst(c, t, repl); }
      ReplaceAll(p, [c], repl) + repl + t;
    }
  }

  lemma ReplaceOfSeparatorFirst(c: char, t: string, repl: string)
    requires c !in t
    ensures ReplaceAll([c] + t, [c], repl) == repl + t
  {
    var s := [c] + t;
    assert s[..1] == [c] && s[1..] == t;
    ReplaceAllAbsent(t, c, repl);
  }

  lemma MarkedSnoc(ys: seq<string>, t: string, tok: string)
    requires |ys| >= 1
    ensures var xs := Marked(ys, tok);
      Marked(ys + [t], tok) == xs[..|xs| - 1] + [xs[|xs| - 1] + tok] + [t]
  {
    var xs := Marked(ys, tok);
    var l := Marked(ys + [t], tok);
    var r := xs[..|xs| - 1] + [xs[|xs| - 1] + tok] + [t];
    assert |l| == |r|;
    forall k | 0 <= k < |l|
      ensures l[k] == r[k]
    {
      if k < |ys| - 1 {
        assert r[k] == xs[k];
      }
    }
  }

  /** Replacing each separator by `tok` + separator appends `tok` to every
      segment but the last. */
  lemma {:induction false} SplitOfMarked(s: string, c: char, tok: string)
    requires c !in tok
    ensures Split(ReplaceAll(s, [c], tok + [c]), c) == Marked(Split(s, c), tok)
    decreases |s|
  {
    var i := LastIndex(s, c);
    if i < 0 {
      ReplaceAllAbsent(s, c, tok + [c]);
      assert Split(s, c) == [s];
    } else {
      var p, t := s[..i], s[i + 1..];
      assert s == p + [c] + t;
      SplitOfMarked(p, c, tok);
      SplitOfMarkedStep(p, c, t, tok);
    }
  }

  lemma SplitOfMarkedLast(p: string, c: char, t: string, tok: string)
    requires c !in t
    ensures var mp := ReplaceAll(p, [c], tok + [c]);
      Split(ReplaceAll(p + [c] + t, [c], tok + [c]), c) == Split(mp + tok, c) + [t]
  {
    var mp := ReplaceAll(p, [c], tok + [c]);
    ReplaceAroundLast(p, c, t, tok + [c]);
    assert mp + (tok + [c]) + t == (mp + tok) + [c] + t;
    SplitAfterLast(mp + tok, c, t);
  }

  /** The step of `SplitOfMarked` across the last separator. */
  lemma SplitOfMarkedStep(p: string, c: char, t: string, tok: string)
    requires c !in tok && c !in t
    requires Split(ReplaceAll(p, [c], tok + [c]), c) == Marked(Split(p, c), tok)
    ensures Split(ReplaceAll(p + [c] + t, [c], tok + [c]), c) == Marked(Split(p + [c] + t, c), tok)
  {
    var s := p + [c] + t;
    var mp := ReplaceAll(p, [c], tok + [c]);
    var xs := Split(mp, c);
    calc {
      Split(ReplaceAll(s, [c], tok + [c]), c);
      { SplitOfMarkedLast(p, c, t, tok); }
      Split(mp + tok, c) + [t];
      { SplitAppendFree(mp, c, tok); }
      xs[..|xs| - 1] + [xs[|xs| - 1] + tok] + [t];
      { MarkedSnoc(Split(p, c), t, tok); }
      Marked(Split(p, c) + [t], tok);
      { SplitAfterLast(p, c, t); }
      Marked(Split(s, c), tok);
    }
  }

  // ---------------------------------------------------------------------
  // rsplit, slicing and joining

  /** The last `n` pieces of `rsplit(c, n)` are the last `n` segments. */
  lemma {:induction false} RSplitLastN(s: string, c: char, n: nat)
    requires n >= 1
    ensures LastN(RSplit(s, c, n), n) == LastN(Split(s, c), n)
    decreases |s|
  {
    var i := LastIndex(s, c);
    if i >= 0 {
      var t := s[i + 1..];
      var xs := RSplit(s[..i], c, n - 1);
      var ys := Split(s[..i], c);
      assert RSplit(s, c, n) == xs + [t];
      assert Split(s, c) == ys + [t];
      LastNSnoc(xs, t, n);
      LastNSnoc(ys, t, n);
      if n > 1 {
        RSplitLastN(s[..i], c, n - 1);
        assert LastN(xs, n - 1) == LastN(ys, n - 1);
      }
    }
  }

  /** Joining the pieces of `rsplit(c, n)` with `c` gives the string back. */
  lemma {:induction false} RSplitRoundTrip(s: string, c: char, n: nat)
    ensures Intercalate(RSplit(s, c, n), [c]) == s
    decreases |s|
  {
    var i := LastIndex(s, c);
    if n > 0 && i >= 0 {
      var xs := RSplit(s[..i], c, n - 1);
      var t := s[i + 1..];
      RSplitRoundTrip(s[..i], c, n - 1);
      var zs := xs + [t];
      assert zs[..|zs| - 1] == xs;
      assert s == s[..i] + [c] + t;
    }
  }

  lemma LastNSnoc<T>(xs: seq<T>, x: T, n: nat)
    requires n >= 1
    ensures LastN(xs + [x], n) == (if n == 1 then [] else LastN(xs, n - 1)) + [x]
  {
    var ys := xs + [x];
    if |ys| > n {
      assert ys[|ys| - n..] == xs[|xs| - (n - 1)..] + [x];
    }
  }

  lemma LastNMarked(xs: seq<string>, tok: string, n: nat)
    requires n >= 1
    ensures LastN(Marked(xs, tok), n) == Marked(LastN(xs, n), tok)
  {
  }

  /** `"".join(xs)` is the join of `xs` with the empty separator. */
  lemma {:induction false} ConcatIsJoin(xs: seq<string>)
    ensures Concat(xs) == Intercalate(xs, [])
    decreases |xs|
  {
    if |xs| > 1 {
      ConcatIsJoin(xs[..|xs| - 1]);
    }
  }

  lemma ConcatSnoc(xs: seq<string>, x: string)
    ensures Concat(xs + [x]) == Concat(xs) + x
  {
    assert (xs + [x])[..|xs|] == xs;
  }

  lemma ConcatMarkedSnoc(ys: seq<string>, x: string, tok: string)
    requires |ys| >= 1
    ensures Concat(Marked(ys + [x], tok)) == Concat(Marked(ys, tok)) + tok + x
  {
    var my := Marked(ys, tok);
    var front, y := my[..|ys| - 1], my[|ys| - 1];
    MarkedSnoc(ys, x, tok);
    ConcatSnoc(front + [y + tok], x);
    ConcatSnoc(front, y + tok);
    assert my == front + [y];
    ConcatSnoc(front, y);
  }

  /** Concatenating marked segments is the same as joining them by `tok`. */
  lemma {:induction false} ConcatMarked(xs: seq<string>, tok: string)
    ensures Concat(Marked(xs, tok)) == Intercalate(xs, tok)
    decreases |xs|
  {
    if |xs| == 1 {
      ConcatSnoc([], xs[0]);
      assert Marked(xs, tok) == [] + [xs[0]];
    } else if |xs| > 1 {
      var ys, x := xs[..|xs| - 1], xs[|xs| - 1];
      assert xs == ys + [x];
      ConcatMarkedSnoc(ys, x, tok);
      ConcatMarked(ys, tok);
    }
  }

  lemma {:induction false} IntercalateFree(xs: seq<string>, sep: string, c: char)
    requires forall k :: 0 <= k < |xs| ==> c !in xs[k]
    requires c !in sep
    ensures c !in Intercalate(xs, sep)
    decreases |xs|
  {
    if |xs| > 1 {
      IntercalateFree(xs[..|xs| - 1], sep, c);
    }
  }
}
