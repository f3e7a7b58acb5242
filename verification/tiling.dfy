/** What a merged file promises its user: after any run of writes that each
    start where the previous one ended, whichever shard each went to, and
    across a close and reopen, `ReadAt` returns exactly the bytes written
    (mergefs_test.go:27-98). The bridge is `Represents(f, content)`: every
    shard replays to its descriptors, every descriptor's payload in its store
    is the content it covers, no descriptor starts strictly inside another,
    and every byte of the content is covered by some descriptor. */
module Tiling {
  import opened Store
  import opened Segs
  import opened Merge
  import Codec
  import Shard
  import opened MergeFS

  // ------------------------------------------------------------ invariant

  /** `s` is one of `sh`'s descriptors whose payload lies, within the part of
      the store replay has passed, and equals the content it covers. */
  ghost predicate SegHolds(sh: Shard.SegFile, s: Seg, content: seq<byte>) {
    End(s) <= |content| &&
    s.pos + s.size <= sh.cursor && s.pos + s.size <= |sh.store| &&
    sh.store[s.pos..s.pos + s.size] == content[s.off..End(s)]
  }

  /** The shard's descriptors are in key order and each one holds. */
  ghost predicate ShardHolds(sh: Shard.SegFile, content: seq<byte>) {
    SortedByKey(sh.segs) && forall s | s in sh.segs :: SegHolds(sh, s, content)
  }

  /** Every shard's descriptors and cursor are what replaying its store
      rebuilds. */
  ghost predicate AllReplay(f: File) {
    forall i {:trigger Shard.Replays(f.files[i])} | 0 <= i < |f.files| :: Shard.Replays(f.files[i])
  }

  ghost predicate AllHold(f: File, content: seq<byte>) {
    forall i | 0 <= i < |f.files| :: ShardHolds(f.files[i], content)
  }

  /** `s` is a descriptor of one of the file's shards. */
  ghost predicate InFile(f: File, s: Seg) {
    exists i | 0 <= i < |f.files| :: s in f.files[i].segs
  }

  ghost predicate Covered(f: File, x: nat) {
    exists s | InFile(f, s) :: Covers(s, x)
  }

  /** No descriptor of any shard starts strictly inside another one. */
  ghost predicate NoneStartsInside(f: File) {
    forall s, t | InFile(f, s) && InFile(f, t) :: !(s.off < t.off < End(s))
  }

  /** Every byte of the content is covered by some descriptor. */
  ghost predicate Complete(f: File, content: seq<byte>) {
    forall x | 0 <= x < |content| :: Covered(f, x)
  }

  ghost predicate Represents(f: File, content: seq<byte>) {
    f.size == |content| && AllReplay(f) && AllHold(f, content) && NoneStartsInside(f) && Complete(f, content)
  }

  // ------------------------------------------------------------- the walk

  /** A loaded seg holds the content it covers. */
  ghost predicate Fits(u: Seg, content: seq<byte>) {
    End(u) <= |content| && u.data == content[u.off..End(u)]
  }

  ghost predicate NoStartInside(r: seq<Seg>) {
    forall u, v | u in r && v in r :: !(u.off < v.off < End(u))
  }

  ghost predicate CoveredBy(r: seq<Seg>, x: nat) {
    exists u | u in r :: Covers(u, x)
  }

  /** The copy loop over a key-sorted list of loaded segs, none starting
      inside another, all ending at or after the cursor and together covering
      the bytes to be read, copies exactly those bytes and never runs off a
      seg. */
  lemma {:induction false} CopyFills(r: seq<Seg>, p: nat, remaining: nat, content: seq<byte>)
    requires SortedByKey(r) && NoStartInside(r)
    requires forall u | u in r :: Fits(u, content) && p <= End(u)
    requires p <= |content|
    requires forall x | p <= x < p + remaining && x < |content| :: CoveredBy(r, x)
    ensures CopySegs(r, p, remaining) == Filled(content[p..p + Min(remaining, |content| - p)])
    decreases |r|, 1
  {
    if remaining == 0 {
      assert CopySegs(r, p, remaining) == Filled([]);
    } else if |r| == 0 {
      assert !CoveredBy(r, p);
      assert CopySegs(r, p, remaining) == Filled([]);
    } else {
      FirstStartsBefore(r, p, remaining, content);
      if End(r[0]) < p + remaining {
        CopyFillsOn(r, p, remaining, content);
      } else {
        CopyLast(r, p, remaining, content);
      }
    }
  }

  /** The walk when the first seg ends before the bytes to be read do: its
      bytes from the cursor on, then the walk over the rest of the list from
      its end. */
  lemma {:induction false} CopyFillsOn(r: seq<Seg>, p: nat, remaining: nat, content: seq<byte>)
    requires SortedByKey(r) && NoStartInside(r)
    requires forall u | u in r :: Fits(u, content) && p <= End(u)
    requires p <= |content|
    requires forall x | p <= x < p + remaining && x < |content| :: CoveredBy(r, x)
    requires |r| > 0 && r[0].off <= p <= End(r[0]) < p + remaining
    ensures CopySegs(r, p, remaining) == Filled(content[p..p + Min(remaining, |content| - p)])
    decreases |r|, 0
  {
    assert r[0] in r;
    CopyRest(r, p, remaining, content);
    CopyFills(r[1..], End(r[0]), remaining - (End(r[0]) - p), content);
    CopyLink(r, p, remaining, content);
    CopyJoin(r, p, remaining, content);
  }

  /** The walk when the first seg holds every byte still to be read. */
  lemma CopyLast(r: seq<Seg>, p: nat, remaining: nat, content: seq<byte>)
    requires |r| > 0 && remaining > 0 && r[0].off <= p && p + remaining <= End(r[0])
    requires Fits(r[0], content)
    ensures CopySegs(r, p, remaining) == Filled(content[p..p + Min(remaining, |content| - p)])
  {
    assert CopySegs(r[1..], p + remaining, 0) == Filled([]);
    CopyJoin(r, p, remaining, content);
  }

  /** The walk after the first seg, which starts at that seg's end, is the
      rest of the walk `CopyJoin` expects. */
  lemma CopyLink(r: seq<Seg>, p: nat, remaining: nat, content: seq<byte>)
    requires |r| > 0 && p <= End(r[0]) <= |content| && End(r[0]) < p + remaining
    requires var rest := remaining - (End(r[0]) - p);
      CopySegs(r[1..], End(r[0]), rest) == Filled(content[End(r[0])..End(r[0]) + Min(rest, |content| - End(r[0]))])
    ensures var num := Min(End(r[0]) - p, remaining);
      CopySegs(r[1..], p + num, remaining - num) == Filled(content[p + num..p + Min(remaining, |content| - p)])
  {
  }

  /** One step of the copy loop: the bytes of the first seg from the cursor
      on, followed by what the rest of the walk copies. */
  lemma CopyJoin(r: seq<Seg>, p: nat, remaining: nat, content: seq<byte>)
    requires |r| > 0 && remaining > 0
    requires r[0].off <= p <= End(r[0]) && Fits(r[0], content)
    requires var num := Min(End(r[0]) - p, remaining);
      CopySegs(r[1..], p + num, remaining - num) == Filled(content[p + num..p + Min(remaining, |content| - p)])
    ensures CopySegs(r, p, remaining) == Filled(content[p..p + Min(remaining, |content| - p)])
  {
    var s := r[0];
    var num := Min(End(s) - p, remaining);
    var m := Min(remaining, |content| - p);
    CopyOne(r, p, remaining);
    JoinBytes(s, content, p, num, m);
  }

  /** The bytes a seg holding the content gives from the cursor on,
      followed by the content after them, are the content from the cursor. */
  lemma JoinBytes(s: Seg, content: seq<byte>, p: nat, num: nat, m: nat)
    requires Fits(s, content) && s.off <= p && p + num <= End(s) && num <= m && p + m <= |content|
    ensures s.data[p - s.off..p - s.off + num] + content[p + num..p + m] == content[p..p + m]
  {
    SliceOfSlice(content, s.off, End(s), p - s.off, p - s.off + num);
    SliceJoin(content, p, p + num, p + m);
  }

  /** The walk's first seg starts at or before the cursor: it comes first in
      key order, and whichever seg covers the cursor starts no earlier. */
  lemma FirstStartsBefore(r: seq<Seg>, p: nat, remaining: nat, content: seq<byte>)
    requires |r| > 0 && remaining > 0 && SortedByKey(r)
    requires forall u | u in r :: Fits(u, content) && p <= End(u)
    requires p <= |content|
    requires forall x | p <= x < p + remaining && x < |content| :: CoveredBy(r, x)
    ensures r[0].off <= p <= End(r[0]) && Fits(r[0], content)
  {
    assert r[0] in r;
    if p < |content| {
      assert CoveredBy(r, p);
      var u :| u in r && Covers(u, p);
      var k :| 0 <= k < |r| && r[k] == u;
      if k > 0 {
        assert KeyLe(r[0], r[k]);
      }
    }
  }

  /** One step of the copy loop on a seg that holds the cursor. */
  lemma CopyOne(r: seq<Seg>, p: nat, remaining: nat)
    requires |r| > 0 && remaining > 0
    requires r[0].off <= p <= End(r[0]) && |r[0].data| == r[0].size
    ensures var num := Min(End(r[0]) - p, remaining);
            var rest := CopySegs(r[1..], p + num, remaining - num);
            CopySegs(r, p, remaining) ==
              if rest.Filled? then Filled(r[0].data[p - r[0].off..p - r[0].off + num] + rest.bytes) else rest
  {
  }

  /** The recursive step of `CopyFills`: past the first seg, the rest of the
      list meets the walk's requirements from the first seg's end on. */
  lemma CopyRest(r: seq<Seg>, p: nat, remaining: nat, content: seq<byte>)
    requires |r| > 0 && SortedByKey(r) && NoStartInside(r)
    requires forall u | u in r :: Fits(u, content) && p <= End(u)
    requires r[0].off <= p <= End(r[0]) && p + remaining > End(r[0])
    requires forall x | p <= x < p + remaining && x < |content| :: CoveredBy(r, x)
    ensures SortedByKey(r[1..]) && NoStartInside(r[1..])
    ensures forall u | u in r[1..] :: Fits(u, content) && End(r[0]) <= End(u)
    ensures forall x | End(r[0]) <= x < End(r[0]) + (remaining - (End(r[0]) - p)) && x < |content| ::
      CoveredBy(r[1..], x)
  {
    var s := r[0];
    var tail := r[1..];
    assert r == [s] + tail;
    forall i, j | 0 <= i < j < |tail|
      ensures KeyLe(tail[i], tail[j])
    {
      assert tail[i] == r[i + 1] && tail[j] == r[j + 1];
    }
    forall u | u in tail
      ensures Fits(u, content) && End(s) <= End(u)
    {
      var k :| 0 <= k < |tail| && tail[k] == u;
      assert r[k + 1] == u;
      assert KeyLe(r[0], r[k + 1]);
      assert s in r && u in r;
    }
    forall x | End(s) <= x < End(s) + (remaining - (End(s) - p)) && x < |content|
      ensures CoveredBy(tail, x)
    {
      assert CoveredBy(r, x);
      var u :| u in r && Covers(u, x);
      assert u in tail;
    }
  }

  // ------------------------------------------------------------ reading

  /** Where a seg of the merged answer comes from: a descriptor of some shard
      with the same offset and length, met by the window, whose payload is
      the content it covers. */
  lemma Origin(f: File, content: seq<byte>, off: nat, size: nat, u: Seg)
    requires AllHold(f, content)
    requires u in MergeAll(Queries(f, off, size))
    ensures Fits(u, content) && off < End(u)
    ensures exists s | InFile(f, s) :: s.off == u.off && s.size == u.size
  {
    var qs := Queries(f, off, size);
    MergeAllMembers(qs);
    var j :| 0 <= j < |qs| && u in qs[j];
    var sh := f.files[j];
    assert qs[j] == Shard.ReadAt(sh, off, size);
    var s :| s in sh.segs && Intersects(s, off, size) && u == Shard.Load(sh.store, s);
    assert ShardHolds(sh, content);
    assert SegHolds(sh, s, content);
    LoadFits(sh, s, content);
    assert InFile(f, s);
  }

  /** A descriptor that holds loads the content bytes it stands for. */
  lemma LoadFits(sh: Shard.SegFile, s: Seg, content: seq<byte>)
    requires SegHolds(sh, s, content)
    ensures Fits(Shard.Load(sh.store, s), content)
  {
    ReadInside(sh.store, s.pos, s.size);
  }

  /** A descriptor the window meets reaches the merged answer, loaded. */
  lemma Reached(f: File, off: nat, size: nat, i: nat, s: Seg)
    requires i < |f.files| && SortedByKey(f.files[i].segs)
    requires s in f.files[i].segs && Intersects(s, off, size)
    ensures Shard.Load(f.files[i].store, s) in MergeAll(Queries(f, off, size))
  {
    var qs := Queries(f, off, size);
    var sh := f.files[i];
    SortedByKeyByOff(sh.segs);
    Shard.ReadAtFindsAllHits(sh, off, size);
    var hits := Shard.Hits(sh.segs, off, size);
    var k :| 0 <= k < |hits| && hits[k] == s;
    assert qs[i][k] == Shard.Load(sh.store, s);
    MergeAllMembers(qs);
  }

  /** The merged answer to a window starting inside the content meets the
      requirements of the copy walk. */
  lemma MergedWalkable(f: File, content: seq<byte>, size: nat, off: nat)
    requires AllHold(f, content) && NoneStartsInside(f) && Complete(f, content)
    requires off <= |content|
    ensures var l := MergeAll(Queries(f, off, size));
      SortedByKey(l) && NoStartInside(l) &&
      (forall u | u in l :: Fits(u, content) && off <= End(u)) &&
      forall x | off <= x < off + size && x < |content| :: CoveredBy(l, x)
  {
    var qs := Queries(f, off, size);
    var l := MergeAll(qs);
    forall j | 0 <= j < |qs|
      ensures SortedByKey(qs[j])
    {
      assert ShardHolds(f.files[j], content);
      Shard.ScanSorted(f.files[j].store, f.files[j].segs, off, size);
    }
    MergeAllSorted(qs);
    forall u | u in l
      ensures Fits(u, content) && off <= End(u)
    {
      Origin(f, content, off, size, u);
    }
    forall u, v | u in l && v in l
      ensures !(u.off < v.off < End(u))
    {
      Origin(f, content, off, size, u);
      Origin(f, content, off, size, v);
      var s :| InFile(f, s) && s.off == u.off && s.size == u.size;
      var t :| InFile(f, t) && t.off == v.off && t.size == v.size;
      assert !(s.off < t.off < End(s));
    }
    forall x | off <= x < off + size && x < |content|
      ensures CoveredBy(l, x)
    {
      assert Covered(f, x);
      var s :| InFile(f, s) && Covers(s, x);
      var i :| 0 <= i < |f.files| && s in f.files[i].segs;
      assert ShardHolds(f.files[i], content);
      Reached(f, off, size, i, s);
      assert Covers(Shard.Load(f.files[i].store, s), x);
    }
  }

  /** What a read of `size` bytes at `off` returns from a file whose bytes
      are `content`: end of file past the end, otherwise the bytes from `off`
      on, as many as fit in the buffer. */
  function Expected(content: seq<byte>, size: nat, off: nat): ReadResult {
    if off > |content| then EndOfFile else Filled(content[off..off + Min(size, |content| - off)])
  }

  /** The file's `ReadAt` returns the content from the offset on, as much as
      the buffer holds and the content has, and end of file only past the
      end of the content (mergefs.go:115-141). */
  lemma ReadAtReads(f: File, content: seq<byte>, size: nat, off: nat)
    requires Represents(f, content)
    ensures ReadAt(f, size, off) == Expected(content, size, off)
  {
    if off <= |content| {
      MergedWalkable(f, content, size, off);
      CopyFills(MergeAll(Queries(f, off, size)), off, size, content);
    }
  }

  // ------------------------------------------------------------ opening

  /** Opening empty shards gives an empty file. */
  lemma OpenEmpty(stores: seq<seq<byte>>)
    requires forall i | 0 <= i < |stores| :: stores[i] == []
    ensures Represents(OpenFile(stores), [])
  {
    var f := OpenFile(stores);
    forall i | 0 <= i < |stores|
      ensures f.files[i] == Shard.SegFile([], 0, 0, [])
    {
      assert Codec.HeaderAt([], 0).None?;
    }
    forall i | 0 <= i < |f.files|
      ensures Shard.Replays(f.files[i])
    {
      Shard.OpenReplays(stores[i]);
    }
    forall s
      ensures !InFile(f, s)
    {
      forall i | 0 <= i < |f.files|
        ensures s !in f.files[i].segs
      {
      }
    }
  }

  /** Reopening keeps each shard's store, descriptors and cursor. */
  lemma ReopenShards(f: File)
    requires AllReplay(f)
    ensures var g := OpenFile(Stores(f));
      AllReplay(g) &&
      forall i | 0 <= i < |f.files| :: g.files[i] == f.files[i].(size := g.files[i].size)
  {
    var g := OpenFile(Stores(f));
    forall i | 0 <= i < |f.files|
      ensures g.files[i] == f.files[i].(size := g.files[i].size)
      ensures Shard.Replays(g.files[i])
    {
      assert Shard.Replays(f.files[i]);
      Shard.OpenReplays(f.files[i].store);
    }
  }

  /** A shard's replayed size is at most the content's length. */
  lemma ReplayedSizeBounded(sh: Shard.SegFile, content: seq<byte>)
    requires ShardHolds(sh, content)
    ensures Shard.Open(sh.store).segs == sh.segs ==> Shard.Open(sh.store).size <= |content|
  {
    var segs := sh.segs;
    if |segs| > 0 {
      assert segs[|segs| - 1] in segs;
      assert SegHolds(sh, segs[|segs| - 1], content);
    }
  }

  /** Closing and reopening a file rebuilds one that represents the same
      content: every shard replays to the same descriptors, and the largest
      replayed size is the content's length (mergefs.go:78-92). */
  lemma ReopenRepresents(f: File, content: seq<byte>)
    requires Represents(f, content)
    ensures Represents(OpenFile(Stores(f)), content)
  {
    var g := OpenFile(Stores(f));
    ReopenShards(f);
    ReopenHolds(f, content, g);
    SameSegsSameCover(f, g, content);
    ReopenSize(f, content, g);
  }

  /** After reopening, every shard holds the same descriptors, they still
      hold the content, and no shard's replayed size exceeds it. */
  lemma ReopenHolds(f: File, content: seq<byte>, g: File)
    requires AllReplay(f) && AllHold(f, content) && g == OpenFile(Stores(f))
    ensures |g.files| == |f.files| && AllHold(g, content)
    ensures forall i | 0 <= i < |f.files| :: g.files[i].segs == f.files[i].segs && g.files[i].size <= |content|
  {
    forall i | 0 <= i < |g.files|
      ensures g.files[i].segs == f.files[i].segs && g.files[i].cursor == f.files[i].cursor
    {
      assert Shard.Replays(f.files[i]);
    }
    forall i | 0 <= i < |g.files|
      ensures ShardHolds(g.files[i], content) && g.files[i].size <= |content|
    {
      assert ShardHolds(f.files[i], content);
      ReplayedSizeBounded(f.files[i], content);
    }
  }

  /** The reopened file's size, the largest replayed shard size, is the
      content's length: the shard whose last descriptor ends at the end of
      the content replays to exactly that size. */
  lemma ReopenSize(f: File, content: seq<byte>, g: File)
    requires AllHold(f, content) && NoneStartsInside(f) && Complete(f, content)
    requires g == OpenFile(Stores(f))
    requires forall i | 0 <= i < |f.files| :: g.files[i].segs == f.files[i].segs && g.files[i].size <= |content|
    ensures g.size == |content|
  {
    if |content| > 0 {
      var i := ReachesEnd(f, content);
      assert g.files[i].size == |content|;
    }
  }

  /** Two files whose shards hold the same descriptors agree on which
      descriptors they hold, hence on coverage and on starts. */
  lemma SameSegsSameCover(f: File, g: File, content: seq<byte>)
    requires |g.files| == |f.files|
    requires forall i | 0 <= i < |f.files| :: g.files[i].segs == f.files[i].segs
    requires NoneStartsInside(f) && Complete(f, content)
    ensures NoneStartsInside(g) && Complete(g, content)
  {
    forall s | InFile(g, s)
      ensures InFile(f, s)
    {
      var i :| 0 <= i < |g.files| && s in g.files[i].segs;
      assert s in f.files[i].segs;
    }
    forall s | InFile(f, s)
      ensures InFile(g, s)
    {
      var i :| 0 <= i < |f.files| && s in f.files[i].segs;
      assert s in g.files[i].segs;
    }
    forall x | 0 <= x < |content|
      ensures Covered(g, x)
    {
      assert Covered(f, x);
    }
  }

  /** Some shard's last descriptor ends at the end of the content: the seg
      covering the last byte ends there, and no descriptor after it in its
      shard can end earlier. */
  lemma ReachesEnd(f: File, content: seq<byte>) returns (i: nat)
    requires AllHold(f, content) && NoneStartsInside(f) && Complete(f, content)
    requires |content| > 0
    ensures i < |f.files| && f.files[i].segs != [] &&
      End(f.files[i].segs[|f.files[i].segs| - 1]) == |content|
  {
    assert Covered(f, |content| - 1);
    var s :| InFile(f, s) && Covers(s, |content| - 1);
    i :| 0 <= i < |f.files| && s in f.files[i].segs;
    var sh := f.files[i];
    assert ShardHolds(sh, content);
    var k :| 0 <= k < |sh.segs| && sh.segs[k] == s;
    LastEndsLast(sh, content, k);
    var last := sh.segs[|sh.segs| - 1];
    if s.off < last.off {
      assert last in sh.segs && InFile(f, last);
      assert !(s.off < last.off < End(s));
    }
  }

  /** In a shard, the last descriptor ends no earlier than `segs[k]` unless
      it starts after `segs[k]` does. */
  lemma LastEndsLast(sh: Shard.SegFile, content: seq<byte>, k: nat)
    requires ShardHolds(sh, content) && k < |sh.segs|
    ensures var last := sh.segs[|sh.segs| - 1];
      End(last) <= |content| && (sh.segs[k].off < last.off || End(sh.segs[k]) <= End(last))
  {
    var last := sh.segs[|sh.segs| - 1];
    assert last in sh.segs && SegHolds(sh, last, content);
    if k < |sh.segs| - 1 {
      assert KeyLe(sh.segs[k], last);
    }
  }

  // ------------------------------------------------------------ writing

  /** An earlier descriptor still holds once more content is appended. */
  lemma SegHoldsExtend(sh: Shard.SegFile, s: Seg, content: seq<byte>, b: seq<byte>)
    requires SegHolds(sh, s, content)
    ensures SegHolds(sh, s, content + b)
  {
    assert (content + b)[s.off..End(s)] == content[s.off..End(s)];
  }

  /** Appending `b` to the content through one shard keeps that shard's
      part of the invariant (mergefs.go:207-219). */
  lemma ShardWriteHolds(sh: Shard.SegFile, content: seq<byte>, b: seq<byte>)
    requires ShardHolds(sh, content)
    requires |content| <= Shard.MaxInt64 && |b| <= Shard.MaxInt64
    ensures ShardHolds(Shard.WriteAt(sh, b, |content|), content + b)
  {
    var r := Shard.WriteAt(sh, b, |content|);
    var n := Seg(|content|, |b|, sh.cursor + Codec.HeaderSize, []);
    forall u | u in sh.segs
      ensures KeyLe(u, n)
    {
      assert SegHolds(sh, u, content);
    }
    AppendTop(sh.segs, n);
    forall s | s in r.segs
      ensures SegHolds(r, s, content + b)
    {
      if s in sh.segs {
        OldSegHolds(sh, s, content, b);
      } else {
        NewSegHolds(sh, content, b);
      }
    }
  }

  /** A descriptor the shard already had still holds after the write. */
  lemma OldSegHolds(sh: Shard.SegFile, s: Seg, content: seq<byte>, b: seq<byte>)
    requires ShardHolds(sh, content) && s in sh.segs
    requires |content| <= Shard.MaxInt64 && |b| <= Shard.MaxInt64
    ensures SegHolds(Shard.WriteAt(sh, b, |content|), s, content + b)
  {
    assert SegHolds(sh, s, content);
    SegHoldsExtend(sh, s, content, b);
    StorePrefixKept(sh, b, |content|, s.pos, s.pos + s.size);
  }

  /** The descriptor the write appends holds the appended bytes. */
  lemma NewSegHolds(sh: Shard.SegFile, content: seq<byte>, b: seq<byte>)
    requires |content| <= Shard.MaxInt64 && |b| <= Shard.MaxInt64
    ensures var n := Seg(|content|, |b|, sh.cursor + Codec.HeaderSize, []);
      SegHolds(Shard.WriteAt(sh, b, |content|), n, content + b)
  {
    assert (content + b)[|content|..|content| + |b|] == b;
  }

  /** A shard write leaves every byte before the old cursor as it was. */
  lemma StorePrefixKept(sh: Shard.SegFile, b: seq<byte>, off: nat, lo: nat, hi: nat)
    requires off <= Shard.MaxInt64 && |b| <= Shard.MaxInt64
    requires lo <= hi <= sh.cursor && hi <= |sh.store|
    ensures var r := Shard.WriteAt(sh, b, off); hi <= |r.store| && r.store[lo..hi] == sh.store[lo..hi]
  {
    var r := Shard.WriteAt(sh, b, off);
    var c := Min(sh.cursor, |sh.store|);
    assert r.store[lo..hi] == r.store[..c][lo..hi];
    assert sh.store[lo..hi] == sh.store[..c][lo..hi];
  }

  /** The descriptors of the file after the write: the old ones and the new
      one, which starts at the old end of the content. */
  lemma WrittenSegs(f: File, content: seq<byte>, shard: nat, b: seq<byte>)
    requires AllHold(f, content)
    requires shard < |f.files|
    requires |content| <= Shard.MaxInt64 && |b| <= Shard.MaxInt64
    ensures var n := Seg(|content|, |b|, f.files[shard].cursor + Codec.HeaderSize, []);
      var g := WriteAt(f, shard, b, |content|);
      InFile(g, n) &&
      (forall s | InFile(f, s) :: InFile(g, s) && End(s) <= |content|) &&
      (forall s | InFile(g, s) :: s == n || InFile(f, s))
  {
    var g := WriteAt(f, shard, b, |content|);
    var n := Seg(|content|, |b|, f.files[shard].cursor + Codec.HeaderSize, []);
    assert n in g.files[shard].segs;
    forall s | InFile(f, s)
      ensures InFile(g, s) && End(s) <= |content|
    {
      var i :| 0 <= i < |f.files| && s in f.files[i].segs;
      assert s in g.files[i].segs;
      assert ShardHolds(f.files[i], content);
      assert SegHolds(f.files[i], s, content);
    }
    forall s | InFile(g, s)
      ensures s == n || InFile(f, s)
    {
      var i :| 0 <= i < |g.files| && s in g.files[i].segs;
      if s != n {
        assert s in f.files[i].segs;
      }
    }
  }

  /** `File.WriteAt` at the end of the content, to any shard, keeps the
      invariant for the content with the payload appended
      (mergefs.go:103-110). */
  lemma WriteAtRepresents(f: File, content: seq<byte>, shard: nat, b: seq<byte>)
    requires Represents(f, content)
    requires shard < |f.files|
    requires |content| <= Shard.MaxInt64 && |b| <= Shard.MaxInt64
    ensures Represents(WriteAt(f, shard, b, |content|), content + b)
  {
    var g := WriteAt(f, shard, b, |content|);
    var c' := content + b;
    var n := Seg(|content|, |b|, f.files[shard].cursor + Codec.HeaderSize, []);
    forall i | 0 <= i < |g.files|
      ensures Shard.Replays(g.files[i])
    {
      assert Shard.Replays(f.files[i]);
      if i == shard {
        Shard.WriteAtReplays(f.files[i], b, |content|);
      }
    }
    forall i | 0 <= i < |g.files|
      ensures ShardHolds(g.files[i], c')
    {
      assert ShardHolds(f.files[i], content);
      if i == shard {
        ShardWriteHolds(f.files[i], content, b);
      } else {
        forall s | s in g.files[i].segs
          ensures SegHolds(g.files[i], s, c')
        {
          SegHoldsExtend(f.files[i], s, content, b);
        }
      }
    }
    WrittenSegs(f, content, shard, b);
    forall x | 0 <= x < |c'|
      ensures Covered(g, x)
    {
      if x < |content| {
        assert Covered(f, x);
      } else {
        assert Covers(n, x);
      }
    }
  }

  // ------------------------------------------------------------ sessions

  /** The chunks of a run, concatenated in order. */
  function Flatten(chunks: seq<seq<byte>>): seq<byte> {
    if |chunks| == 0 then [] else Flatten(chunks[..|chunks| - 1]) + chunks[|chunks| - 1]
  }

  /** Write `k` of a run: `fs[k]` is the file before it and `fs[k+1]` the
      file after it; chunk `k` goes to shard `shards[k]` at the offset where
      the chunks before it end, counted from `at` (mergefs_test.go:38-48). */
  predicate WritesChunk(fs: seq<File>, at: nat, chunks: seq<seq<byte>>, shards: seq<nat>, k: nat) {
    k < |chunks| && k < |shards| && k + 1 < |fs| && shards[k] < |fs[k].files| &&
    at + |Flatten(chunks[..k])| + |chunks[k]| <= Shard.MaxInt64 &&
    fs[k + 1] == WriteAt(fs[k], shards[k], chunks[k], at + |Flatten(chunks[..k])|)
  }

  /** `fs` is the file before and after each write of a run of chunks. */
  predicate IsRun(fs: seq<File>, at: nat, chunks: seq<seq<byte>>, shards: seq<nat>) {
    |fs| == |chunks| + 1 && |shards| == |chunks| &&
    forall k | 0 <= k < |chunks| :: WritesChunk(fs, at, chunks, shards, k)
  }

  /** Writing a run of chunks from the end of the content on gives a file
      that represents the content followed by the chunks. */
  lemma RunRepresents(fs: seq<File>, content: seq<byte>, at: nat, chunks: seq<seq<byte>>, shards: seq<nat>)
    requires IsRun(fs, at, chunks, shards) && Represents(fs[0], content) && at == |content|
    ensures Represents(fs[|chunks|], content + Flatten(chunks))
  {
    var k, c := 0, content;
    assert chunks[..0] == [];
    while k < |chunks|
      invariant k <= |chunks| && c == content + Flatten(chunks[..k]) && Represents(fs[k], c)
    {
      assert WritesChunk(fs, at, chunks, shards, k);
      FlattenStep(content, chunks, k);
      RunStep(fs, at, chunks, shards, k, c);
      k, c := k + 1, c + chunks[k];
    }
    assert chunks[..k] == chunks;
  }

  /** One write of a run keeps the file representing what has been written. */
  lemma RunStep(fs: seq<File>, at: nat, chunks: seq<seq<byte>>, shards: seq<nat>, k: nat, c: seq<byte>)
    requires WritesChunk(fs, at, chunks, shards, k)
    requires |c| == at + |Flatten(chunks[..k])| && Represents(fs[k], c)
    ensures Represents(fs[k + 1], c + chunks[k])
  {
    WriteAtRepresents(fs[k], c, shards[k], chunks[k]);
  }

  /** The bytes of the first `k+1` chunks are those of the first `k`
      followed by chunk `k`. */
  lemma FlattenStep(content: seq<byte>, chunks: seq<seq<byte>>, k: nat)
    requires k < |chunks|
    ensures content + Flatten(chunks[..k + 1]) == content + Flatten(chunks[..k]) + chunks[k]
  {
    assert chunks[..k + 1][..k] == chunks[..k];
  }

  /** The test's two sessions (mergefs_test.go:27-98): open fresh shards,
      write `first` chunk by chunk to arbitrary shards, read; close, reopen,
      write `second` after it, read. Every read returns the bytes written. */
  lemma TwoSessions(first: seq<seq<byte>>, shards1: seq<nat>, fs1: seq<File>,
                    second: seq<seq<byte>>, shards2: seq<nat>, fs2: seq<File>, size: nat, off: nat)
    requires IsRun(fs1, 0, first, shards1) && fs1[0] == OpenFile(seq(NumFiles, i => []))
    requires IsRun(fs2, |Flatten(first)|, second, shards2) && fs2[0] == OpenFile(Stores(fs1[|first|]))
    ensures ReadAt(fs1[|first|], size, off) == Expected(Flatten(first), size, off)
    ensures ReadAt(fs2[|second|], size, off) == Expected(Flatten(first) + Flatten(second), size, off)
  {
    OpenEmpty(seq(NumFiles, i => []));
    RunRepresents(fs1, [], 0, first, shards1);
    assert [] + Flatten(first) == Flatten(first);
    ReadAtReads(fs1[|first|], Flatten(first), size, off);
    ReopenRepresents(fs1[|first|], Flatten(first));
    RunRepresents(fs2, Flatten(first), |Flatten(first)|, second, shards2);
    ReadAtReads(fs2[|second|], Flatten(first) + Flatten(second), size, off);
  }
}
