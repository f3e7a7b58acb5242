/** The record descriptor shared by the shard log and the merge
    (mergefs.go:19-24), and the orders the merge and the lookup rely on. */
module Segs {
  import opened Store

  /** One record: logical offset, payload length, position of the payload in
      the shard's store, and the payload itself once a read has loaded it
      (empty in the shard's in-memory list). */
  datatype Seg = Seg(off: nat, size: nat, pos: nat, data: seq<byte>)

  /** One past the last logical byte a seg covers. */
  function End(s: Seg): nat { s.off + s.size }

  /** `s` shares at least one position with the window `[off, off+size)`,
      in the sense the shard lookup uses (mergefs.go:227-230). */
  predicate Intersects(s: Seg, off: nat, size: nat) {
    End(s) > off && s.off < off + size
  }

  /** `s` holds logical byte `x`. */
  predicate Covers(s: Seg, x: nat) {
    s.off <= x < End(s)
  }

  /** Ascending order by offset, then by length (the merge's order). */
  predicate KeyLe(a: Seg, b: Seg) {
    a.off < b.off || (a.off == b.off && a.size <= b.size)
  }

  predicate SameKey(a: Seg, off: nat, size: nat) {
    a.off == off && a.size == size
  }

  ghost predicate SortedByKey(s: seq<Seg>) {
    forall i, j | 0 <= i < j < |s| :: KeyLe(s[i], s[j])
  }

  ghost predicate SortedByOff(s: seq<Seg>) {
    forall i, j | 0 <= i < j < |s| :: s[i].off <= s[j].off
  }

  /** The elements of `s` whose offset and length are exactly `(off, size)`,
      in their order in `s`. */
  function KeyFilter(s: seq<Seg>, off: nat, size: nat): seq<Seg>
  {
    if |s| == 0 then []
    else (if SameKey(s[0], off, size) then [s[0]] else []) + KeyFilter(s[1..], off, size)
  }

  lemma {:induction false} KeyFilterAppend(a: seq<Seg>, b: seq<Seg>, off: nat, size: nat)
    ensures KeyFilter(a + b, off, size) == KeyFilter(a, off, size) + KeyFilter(b, off, size)
  {
    if |a| > 0 {
      assert (a + b)[1..] == a[1..] + b;
      KeyFilterAppend(a[1..], b, off, size);
    } else {
      assert a + b == b;
    }
  }

  lemma {:induction false} KeyFilterNone(s: seq<Seg>, off: nat, size: nat)
    requires forall u | u in s :: !SameKey(u, off, size)
    ensures KeyFilter(s, off, size) == []
  {
    if |s| > 0 {
      assert s[0] in s;
      KeyFilterNone(s[1..], off, size);
    }
  }

  lemma SortedByKeyByOff(s: seq<Seg>)
    requires SortedByKey(s)
    ensures SortedByOff(s)
  {
  }
}
