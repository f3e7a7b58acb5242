/** `mergeSegs` (mergefs.go:26-54): a two-index merge run from the tails of
    two seg lists. It fills its output from the last slot down, always taking
    the larger tail, so the result is ASCENDING by (offset, length). */
module Merge {
  import opened Segs

  /** The comparison at mergefs.go:39: the tail `x` of the longer list is
      taken before the tail `y` of the other list when it has the larger
      offset, or the same offset and a length at least as large. */
  predicate TakesFirst(x: Seg, y: Seg) {
    x.off > y.off || (x.off == y.off && (x.size == y.size || x.size > y.size))
  }

  /** The merge with `m` in the role of the longer list: its last slot holds
      whichever tail `TakesFirst` picks, and the rest is merged recursively. */
  function MergeTails(m: seq<Seg>, n: seq<Seg>): (r: seq<Seg>)
    ensures |r| == |m| + |n|
    decreases |m| + |n|
  {
    if |m| == 0 then n
    else if |n| == 0 then m
    else
      var x, y := m[|m| - 1], n[|n| - 1];
      if TakesFirst(x, y) then MergeTails(m[..|m| - 1], n) + [x]
      else MergeTails(m, n[..|n| - 1]) + [y]
  }

  /** `mergeSegs(a, b)`: an empty side returns the other side as is;
      otherwise the longer list (`a` when the lengths are equal) plays `m`. */
  function MergeSegs(a: seq<Seg>, b: seq<Seg>): (r: seq<Seg>)
    ensures |a| == 0 ==> r == b
    ensures |b| == 0 ==> r == a
    ensures |r| == |a| + |b|
    ensures multiset(r) == multiset(a) + multiset(b)
  {
    if |a| == 0 then b
    else if |b| == 0 then a
    else if |a| < |b| then MergeTailsPerm(b, a); MergeTails(b, a)
    else MergeTailsPerm(a, b); MergeTails(a, b)
  }

  /** The tail merge rearranges its inputs: it loses and invents nothing. */
  lemma {:induction false} MergeTailsPerm(m: seq<Seg>, n: seq<Seg>)
    ensures multiset(MergeTails(m, n)) == multiset(m) + multiset(n)
    decreases |m| + |n|
  {
    if |m| > 0 && |n| > 0 {
      var x, y := m[|m| - 1], n[|n| - 1];
      assert m == m[..|m| - 1] + [x];
      assert n == n[..|n| - 1] + [y];
      if TakesFirst(x, y) {
        MergeTailsPerm(m[..|m| - 1], n);
      } else {
        MergeTailsPerm(m, n[..|n| - 1]);
      }
    }
  }

  /** The loop invariant of the in-place merge: slots `[0, i]` still hold the
      unmerged prefix of `m`, and merging the unmerged prefixes in front of the
      filled slots `(k, |m|+|n|)` gives the whole merge. */
  ghost predicate MergeState(m: seq<Seg>, n: seq<Seg>, whole: seq<Seg>, buf: seq<Seg>, i: int, j: int, k: int) {
    && -1 <= i < |m| && -1 <= j < |n| && k == i + j + 1
    && |buf| == |m| + |n|
    && buf[..i + 1] == m[..i + 1]
    && MergeTails(m[..i + 1], n[..j + 1]) + buf[k + 1..] == whole
  }

  /** The Go function itself, on a buffer holding `m` followed by `n` as
      `append(m, n...)` builds it: the first loop moves the larger tail into
      slot `k`, the second copies what is left of `n`; what is left of `m`
      already sits in place. */
  method MergeSegsInPlace(a: seq<Seg>, b: seq<Seg>) returns (r: seq<Seg>)
    ensures r == MergeSegs(a, b)
  {
    if |a| == 0 {
      return b;
    } else if |b| == 0 {
      return a;
    }
    var m, n := a, b;
    if |a| < |b| {
      m, n := b, a;
    }
    MergeSegsNonEmpty(a, b);
    r := MergeLoops(m, n);
  }

  /** The two loops of mergeSegs (mergefs.go:36-53) with `m` the longer list. */
  method MergeLoops(m: seq<Seg>, n: seq<Seg>) returns (r: seq<Seg>)
    ensures r == MergeTails(m, n)
  {
    ghost var whole := MergeTails(m, n);
    MergeStart(m, n);
    var buf, i, j, k := MergeBoth(m, n, whole, m + n, |m| - 1, |n| - 1, |m| + |n| - 1);
    buf, j, k := MergeRest(m, n, whole, buf, i, j, k);
    MergeDone(m, n, whole, buf, i, j, k);
    r := buf;
  }

  /** The first loop (mergefs.go:38-47): while both lists have unmerged
      segs, move the larger tail into slot `k`. */
  method MergeBoth(m: seq<Seg>, n: seq<Seg>, ghost whole: seq<Seg>, buf0: seq<Seg>, i0: int, j0: int, k0: int)
    returns (buf: seq<Seg>, i: int, j: int, k: int)
    requires MergeState(m, n, whole, buf0, i0, j0, k0)
    ensures MergeState(m, n, whole, buf, i, j, k) && (i < 0 || j < 0)
  {
    buf, i, j, k := buf0, i0, j0, k0;
    while i >= 0 && j >= 0
      invariant MergeState(m, n, whole, buf, i, j, k)
      decreases i + j
    {
      if TakesFirst(buf[i], n[j]) {
        StepTakeM(m, n, whole, buf, i, j, k);
        buf := buf[k := buf[i]];
        i := i - 1;
      } else {
        StepTakeN(m, n, whole, buf, i, j, k);
        buf := buf[k := n[j]];
        j := j - 1;
      }
      k := k - 1;
    }
  }

  /** The second loop (mergefs.go:48-52): copy what is left of `n`. */
  method MergeRest(m: seq<Seg>, n: seq<Seg>, ghost whole: seq<Seg>, buf0: seq<Seg>, i: int, j0: int, k0: int)
    returns (buf: seq<Seg>, j: int, k: int)
    requires MergeState(m, n, whole, buf0, i, j0, k0) && (i < 0 || j0 < 0)
    ensures MergeState(m, n, whole, buf, i, j, k) && j < 0
  {
    buf, j, k := buf0, j0, k0;
    while j >= 0
      invariant MergeState(m, n, whole, buf, i, j, k)
      invariant i < 0 || j < 0
      decreases j
    {
      StepTakeN(m, n, whole, buf, i, j, k);
      buf := buf[k := n[j]];
      j := j - 1;
      k := k - 1;
    }
  }

  lemma MergeSegsNonEmpty(a: seq<Seg>, b: seq<Seg>)
    requires |a| > 0 && |b| > 0
    ensures MergeSegs(a, b) == if |a| < |b| then MergeTails(b, a) else MergeTails(a, b)
  {
  }

  lemma MergeStart(m: seq<Seg>, n: seq<Seg>)
    ensures MergeState(m, n, MergeTails(m, n), m + n, |m| - 1, |n| - 1, |m| + |n| - 1)
  {
    assert (m + n)[..|m|] == m == m[..|m|];
    assert n[..|n|] == n;
  }

  lemma StepTakeM(m: seq<Seg>, n: seq<Seg>, whole: seq<Seg>, buf: seq<Seg>, i: int, j: int, k: int)
    requires MergeState(m, n, whole, buf, i, j, k)
    requires i >= 0 && j >= 0 && TakesFirst(buf[i], n[j])
    ensures MergeState(m, n, whole, buf[k := buf[i]], i - 1, j, k - 1)
  {
    var tail := buf[k + 1..];
    assert buf[i] == m[i];
    MergeTailsStep(m, n, i, j);
    var rest := MergeTails(m[..i], n[..j + 1]);
    var buf' := buf[k := buf[i]];
    assert buf'[..i] == m[..i];
    assert buf'[k..] == [m[i]] + tail;
    assert rest + ([m[i]] + tail) == (rest + [m[i]]) + tail;
  }

  lemma StepTakeN(m: seq<Seg>, n: seq<Seg>, whole: seq<Seg>, buf: seq<Seg>, i: int, j: int, k: int)
    requires MergeState(m, n, whole, buf, i, j, k)
    requires j >= 0 && (i < 0 || !TakesFirst(buf[i], n[j]))
    ensures MergeState(m, n, whole, buf[k := n[j]], i, j - 1, k - 1)
  {
    var tail := buf[k + 1..];
    assert i >= 0 ==> buf[i] == m[i];
    MergeTailsStep(m, n, i, j);
    var rest := MergeTails(m[..i + 1], n[..j]);
    var buf' := buf[k := n[j]];
    assert buf'[..i + 1] == m[..i + 1];
    assert buf'[k..] == [n[j]] + tail;
    assert rest + ([n[j]] + tail) == (rest + [n[j]]) + tail;
  }

  lemma MergeDone(m: seq<Seg>, n: seq<Seg>, whole: seq<Seg>, buf: seq<Seg>, i: int, j: int, k: int)
    requires MergeState(m, n, whole, buf, i, j, k)
    requires j < 0
    ensures buf == whole
  {
    assert n[..j + 1] == [];
    assert MergeTails(m[..i + 1], []) == m[..i + 1];
    assert buf == buf[..k + 1] + buf[k + 1..];
  }

  /** One step of the tail merge on the prefixes `m[..i+1]` and `n[..j+1]`;
      an empty prefix of `m` leaves the prefix of `n` as it is. */
  lemma MergeTailsStep(m: seq<Seg>, n: seq<Seg>, i: int, j: int)
    requires -1 <= i < |m| && 0 <= j < |n|
    ensures i >= 0 && TakesFirst(m[i], n[j]) ==>
      MergeTails(m[..i + 1], n[..j + 1]) == MergeTails(m[..i], n[..j + 1]) + [m[i]]
    ensures i >= 0 && !TakesFirst(m[i], n[j]) ==>
      MergeTails(m[..i + 1], n[..j + 1]) == MergeTails(m[..i + 1], n[..j]) + [n[j]]
    ensures i < 0 ==> MergeTails(m[..i + 1], n[..j + 1]) == n[..j] + [n[j]]
  {
    if i >= 0 {
      assert m[..i + 1][..i] == m[..i];
      assert m[..i + 1] == m[..i] + [m[i]];
    }
    assert n[..j + 1][..j] == n[..j];
    assert n[..j + 1] == n[..j] + [n[j]];
  }

  /** Everything in the merge lies at or below a key bound that both inputs
      respect. */
  lemma {:induction false} MergeTailsBounded(m: seq<Seg>, n: seq<Seg>, top: Seg)
    requires forall u | u in m :: KeyLe(u, top)
    requires forall u | u in n :: KeyLe(u, top)
    ensures forall u | u in MergeTails(m, n) :: KeyLe(u, top)
  {
    var r := MergeTails(m, n);
    MergeTailsPerm(m, n);
    forall u | u in r
      ensures KeyLe(u, top)
    {
      assert u in multiset(r);
    }
  }

  lemma {:induction false} MergeTailsSorted(m: seq<Seg>, n: seq<Seg>)
    requires SortedByKey(m) && SortedByKey(n)
    ensures SortedByKey(MergeTails(m, n))
    decreases |m| + |n|
  {
    if |m| > 0 && |n| > 0 {
      var x, y := m[|m| - 1], n[|n| - 1];
      var m', n' := m[..|m| - 1], n[..|n| - 1];
      if TakesFirst(x, y) {
        MergeTailsSorted(m', n);
        assert forall u | u in m' :: KeyLe(u, x) by {
          forall u | u in m' ensures KeyLe(u, x) {
            var p :| 0 <= p < |m'| && m'[p] == u;
            assert m[p] == u;
          }
        }
        assert forall u | u in n :: KeyLe(u, x) by {
          forall u | u in n ensures KeyLe(u, x) {
            var p :| 0 <= p < |n| && n[p] == u;
            assert p == |n| - 1 || KeyLe(n[p], n[|n| - 1]);
          }
        }
        MergeTailsBounded(m', n, x);
        AppendTop(MergeTails(m', n), x);
      } else {
        MergeTailsSorted(m, n');
        assert forall u | u in n' :: KeyLe(u, y) by {
          forall u | u in n' ensures KeyLe(u, y) {
            var p :| 0 <= p < |n'| && n'[p] == u;
            assert n[p] == u;
          }
        }
        assert forall u | u in m :: KeyLe(u, y) by {
          forall u | u in m ensures KeyLe(u, y) {
            var p :| 0 <= p < |m| && m[p] == u;
            assert p == |m| - 1 || KeyLe(m[p], m[|m| - 1]);
          }
        }
        MergeTailsBounded(m, n', y);
        AppendTop(MergeTails(m, n'), y);
      }
    }
  }

  lemma AppendTop(s: seq<Seg>, top: Seg)
    requires SortedByKey(s)
    requires forall u | u in s :: KeyLe(u, top)
    ensures SortedByKey(s + [top])
  {
    var t := s + [top];
    forall i, j | 0 <= i < j < |t|
      ensures KeyLe(t[i], t[j])
    {
      if j == |s| {
        assert t[i] == s[i] && s[i] in s;
      } else {
        assert t[i] == s[i] && t[j] == s[j];
      }
    }
  }

  /** Two inputs sorted ascending by (offset, length) give a sorted output. */
  lemma MergeSegsSorted(a: seq<Seg>, b: seq<Seg>)
    requires SortedByKey(a) && SortedByKey(b)
    ensures SortedByKey(MergeSegs(a, b))
  {
    if |a| > 0 && |b| > 0 {
      if |a| < |b| {
        MergeTailsSorted(b, a);
      } else {
        MergeTailsSorted(a, b);
      }
    }
  }

  lemma SortedDropLast(s: seq<Seg>)
    requires |s| > 0 && SortedByKey(s)
    ensures SortedByKey(s[..|s| - 1])
    ensures forall u | u in s :: KeyLe(u, s[|s| - 1])
  {
    forall u | u in s
      ensures KeyLe(u, s[|s| - 1])
    {
      var p :| 0 <= p < |s| && s[p] == u;
      assert p == |s| - 1 || KeyLe(s[p], s[|s| - 1]);
    }
  }

  /** Among the elements of one key, the merge keeps those of `n` first and
      those of `m` last, each group in its input order. */
  lemma {:induction false} MergeTailsTies(m: seq<Seg>, n: seq<Seg>, off: nat, size: nat)
    requires SortedByKey(m) && SortedByKey(n)
    ensures KeyFilter(MergeTails(m, n), off, size) == KeyFilter(n, off, size) + KeyFilter(m, off, size)
    decreases |m| + |n|
  {
    if |m| == 0 {
      assert KeyFilter(m, off, size) == [];
    } else if |n| == 0 {
      assert KeyFilter(n, off, size) == [];
    } else {
      var x, y := m[|m| - 1], n[|n| - 1];
      var m', n' := m[..|m| - 1], n[..|n| - 1];
      SortedDropLast(m);
      SortedDropLast(n);
      if TakesFirst(x, y) {
        MergeTailsTies(m', n, off, size);
        TiesTakeM(m, n, off, size);
      } else {
        MergeTailsTies(m, n', off, size);
        TiesTakeN(m, n, off, size);
      }
    }
  }

  lemma TiesTakeM(m: seq<Seg>, n: seq<Seg>, off: nat, size: nat)
    requires |m| > 0 && |n| > 0 && TakesFirst(m[|m| - 1], n[|n| - 1])
    requires KeyFilter(MergeTails(m[..|m| - 1], n), off, size) == KeyFilter(n, off, size) + KeyFilter(m[..|m| - 1], off, size)
    ensures KeyFilter(MergeTails(m, n), off, size) == KeyFilter(n, off, size) + KeyFilter(m, off, size)
  {
    var x, m' := m[|m| - 1], m[..|m| - 1];
    var rest := MergeTails(m', n);
    assert MergeTails(m, n) == rest + [x];
    KeyFilterAppend(rest, [x], off, size);
    assert m == m' + [x];
    KeyFilterAppend(m', [x], off, size);
    var fn, fm', fx := KeyFilter(n, off, size), KeyFilter(m', off, size), KeyFilter([x], off, size);
    assert KeyFilter(MergeTails(m, n), off, size) == (fn + fm') + fx;
    assert (fn + fm') + fx == fn + (fm' + fx);
  }

  lemma TiesTakeN(m: seq<Seg>, n: seq<Seg>, off: nat, size: nat)
    requires |m| > 0 && |n| > 0 && !TakesFirst(m[|m| - 1], n[|n| - 1])
    requires SortedByKey(m)
    requires KeyFilter(MergeTails(m, n[..|n| - 1]), off, size) == KeyFilter(n[..|n| - 1], off, size) + KeyFilter(m, off, size)
    ensures KeyFilter(MergeTails(m, n), off, size) == KeyFilter(n, off, size) + KeyFilter(m, off, size)
  {
    var y, n' := n[|n| - 1], n[..|n| - 1];
    var rest := MergeTails(m, n');
    assert MergeTails(m, n) == rest + [y];
    KeyFilterAppend(rest, [y], off, size);
    assert n == n' + [y];
    KeyFilterAppend(n', [y], off, size);
    var fn', fm, fy := KeyFilter(n', off, size), KeyFilter(m, off, size), KeyFilter([y], off, size);
    assert KeyFilter(MergeTails(m, n), off, size) == (fn' + fm) + fy;
    if SameKey(y, off, size) {
      SortedDropLast(m);
      assert forall u | u in m :: !SameKey(u, off, size);
      KeyFilterNone(m, off, size);
      assert fm == [];
      assert (fn' + fm) + fy == fn' + fy;
      assert (fn' + fy) + fm == fn' + fy;
    } else {
      assert fy == [];
      assert (fn' + fm) + fy == fn' + fm;
      assert (fn' + fy) + fm == fn' + fm;
    }
  }

  /** The tie rule of mergeSegs: among elements with equal offset and equal
      length, those of the longer input come after those of the shorter one
      (`b` counts as the shorter one when the lengths are equal). */
  lemma MergeSegsTies(a: seq<Seg>, b: seq<Seg>, off: nat, size: nat)
    requires SortedByKey(a) && SortedByKey(b)
    ensures KeyFilter(MergeSegs(a, b), off, size) ==
            if |a| < |b| then KeyFilter(a, off, size) + KeyFilter(b, off, size)
            else KeyFilter(b, off, size) + KeyFilter(a, off, size)
  {
    if |a| == 0 {
      assert KeyFilter(a, off, size) == [];
    } else if |b| == 0 {
      assert KeyFilter(b, off, size) == [];
    } else if |a| < |b| {
      MergeTailsTies(b, a, off, size);
    } else {
      MergeTailsTies(a, b, off, size);
    }
  }
}
