/** `SegFile` (mergefs.go:157-239): one append-only log of records, each a
    16-byte header followed by its payload, together with the in-memory list
    of seg descriptors rebuilt from the log when it is opened. */
module Shard {
  import opened Store
  import opened Codec
  import opened Segs

  /** A shard: its backing store, its size (the logical end it believes in),
      the append cursor (where the next record goes) and the descriptors. */
  datatype SegFile = SegFile(store: seq<byte>, size: nat, cursor: nat, segs: seq<Seg>)

  /** The largest offset and payload length a write can carry: Go's `int64`
      offset restricted to non-negative values, and a slice length. */
  const MaxInt64: nat := 0x7FFF_FFFF_FFFF_FFFF

  // ---------------------------------------------------------------- replay

  /** The replay loop of `OpenSegFile` (mergefs.go:176-197) from byte `at`
      with the descriptors and size gathered so far: while a whole header can
      be read, record a seg for it and jump over its payload. The payload is
      not checked to be present, so a torn payload still yields a seg. */
  function ReplayFrom(store: seq<byte>, at: nat, segs: seq<Seg>, size: nat): (r: SegFile)
    ensures r.store == store
    ensures at <= r.cursor
    ensures |store| < r.cursor + HeaderSize
    decreases |store| - at
  {
    match HeaderAt(store, at)
    case None => SegFile(store, size, at, segs)
    case Some(h) =>
      ReplayFrom(store, at + HeaderSize + h.size, segs + [Seg(h.off, h.size, at + HeaderSize, [])], h.off + h.size)
  }

  /** Replay keeps the descriptors it started with, and its size is the end
      of the last seg it recorded (or the size it started with). */
  lemma {:induction false} ReplayFromSize(store: seq<byte>, at: nat, segs: seq<Seg>, size: nat)
    ensures var r := ReplayFrom(store, at, segs, size);
            |segs| <= |r.segs| && r.segs[..|segs|] == segs &&
            r.size == if |r.segs| == |segs| then size else End(r.segs[|r.segs| - 1])
    decreases |store| - at
  {
    match HeaderAt(store, at)
    case None =>
      assert ReplayFrom(store, at, segs, size) == SegFile(store, size, at, segs);
    case Some(h) =>
      var segs' := segs + [Seg(h.off, h.size, at + HeaderSize, [])];
      ReplayFromSize(store, at + HeaderSize + h.size, segs', h.off + h.size);
      var r := ReplayFrom(store, at + HeaderSize + h.size, segs', h.off + h.size);
      assert ReplayFrom(store, at, segs, size) == r;
      assert r.segs[..|segs|] == r.segs[..|segs'|][..|segs|] == segs;
      if |r.segs| == |segs'| {
        assert r.segs == segs';
        assert r.size == h.off + h.size == End(r.segs[|r.segs| - 1]);
      }
  }

  /** `OpenSegFile` on a store: replay it from its first byte. Its size is
      the end of the last seg, zero for an empty log (mergefs.go:196). */
  function Open(store: seq<byte>): (r: SegFile)
    ensures r.store == store
    ensures |store| < r.cursor + HeaderSize
    ensures r.size == if |r.segs| == 0 then 0 else End(r.segs[|r.segs| - 1])
  {
    ReplayFromSize(store, 0, [], 0);
    ReplayFrom(store, 0, [], 0)
  }

  // ----------------------------------------------------------------- write

  /** `SegFile.WriteAt` (mergefs.go:207-219): write the header and then the
      payload at the append cursor, record the seg, move the cursor past the
      record and add the payload length to the size. */
  function WriteAt(f: SegFile, b: seq<byte>, off: nat): (r: SegFile)
    requires off <= MaxInt64 && |b| <= MaxInt64
    ensures r.segs == f.segs + [Seg(off, |b|, f.cursor + HeaderSize, [])]
    ensures r.cursor == f.cursor + HeaderSize + |b|
    ensures r.size == f.size + |b|
    ensures |r.store| == Max(|f.store|, r.cursor)
    ensures r.store[..Min(f.cursor, |f.store|)] == f.store[..Min(f.cursor, |f.store|)]
    ensures r.store[f.cursor..f.cursor + HeaderSize] == EncodeHeader(Header(off, |b|))
    ensures r.store[f.cursor + HeaderSize..r.cursor] == b
    ensures forall i | |f.store| <= i < f.cursor :: r.store[i] == 0
    ensures forall i | r.cursor <= i < |f.store| :: r.store[i] == f.store[i]
  {
    var h := Header(off, |b|);
    var withHeader := WriteBytes(f.store, f.cursor, EncodeHeader(h));
    var store := WriteBytes(withHeader, f.cursor + HeaderSize, b);
    assert store[f.cursor..f.cursor + HeaderSize] == withHeader[f.cursor..f.cursor + HeaderSize];
    assert store[..Min(f.cursor, |f.store|)] == withHeader[..Min(f.cursor, |f.store|)];
    SegFile(store, f.size + |b|, f.cursor + HeaderSize + |b|, f.segs + [Seg(off, |b|, f.cursor + HeaderSize, [])])
  }

  /** One write: a payload and the logical offset it goes to. */
  datatype Write = Write(data: seq<byte>, off: nat)

  predicate ValidWrite(w: Write) {
    w.off <= MaxInt64 && |w.data| <= MaxInt64
  }

  /** A sequence of writes applied in order. */
  function WriteAll(f: SegFile, ws: seq<Write>): (r: SegFile)
    requires forall i | 0 <= i < |ws| :: ValidWrite(ws[i])
    ensures |r.segs| == |f.segs| + |ws|
    decreases |ws|
  {
    if |ws| == 0 then f
    else assert ValidWrite(ws[0]); WriteAll(WriteAt(f, ws[0].data, ws[0].off), ws[1..])
  }

  // ------------------------------------------------------------------ read

  /** A seg with its payload loaded from the store (mergefs.go:232-235). */
  function Load(store: seq<byte>, s: Seg): (r: Seg)
    ensures r.off == s.off && r.size == s.size && r.pos == s.pos
    ensures |r.data| == s.size
  {
    s.(data := ReadBytes(store, s.pos, s.size))
  }

  function LoadAll(store: seq<byte>, segs: seq<Seg>): (r: seq<Seg>)
    ensures |r| == |segs|
    ensures forall i | 0 <= i < |segs| :: r[i] == Load(store, segs[i])
  {
    seq(|segs|, i requires 0 <= i < |segs| => Load(store, segs[i]))
  }

  /** The scan of `SegFile.ReadAt` (mergefs.go:225-237): skip segs that end
      at or before the window, stop at the first seg that starts at or past
      its end, load every other seg. */
  function Scan(store: seq<byte>, segs: seq<Seg>, off: nat, size: nat): (r: seq<Seg>)
    ensures |r| <= |segs|
    ensures forall u | u in r :: exists s | s in segs :: Intersects(s, off, size) && u == Load(store, s)
  {
    if |segs| == 0 then []
    else
      var s := segs[0];
      if End(s) <= off then Scan(store, segs[1..], off, size)
      else if s.off >= off + size then []
      else [Load(store, s)] + Scan(store, segs[1..], off, size)
  }

  /** `SegFile.ReadAt(off, size)`: the segs met by the window, loaded. */
  function ReadAt(f: SegFile, off: nat, size: nat): (r: seq<Seg>)
    ensures forall u | u in r :: exists s | s in f.segs :: Intersects(s, off, size) && u == Load(f.store, s)
  {
    Scan(f.store, f.segs, off, size)
  }

  /** Reference definition: every seg of the list that the window meets, in
      list order, with no early stop. */
  function Hits(segs: seq<Seg>, off: nat, size: nat): (r: seq<Seg>)
    ensures forall s :: s in r <==> s in segs && Intersects(s, off, size)
  {
    if |segs| == 0 then []
    else (if Intersects(segs[0], off, size) then [segs[0]] else []) + Hits(segs[1..], off, size)
  }

  lemma {:induction false} NoHitsPast(segs: seq<Seg>, off: nat, size: nat)
    requires forall i | 0 <= i < |segs| :: off + size <= segs[i].off
    ensures Hits(segs, off, size) == []
  {
    if |segs| > 0 {
      NoHitsPast(segs[1..], off, size);
    }
  }

  /** On a list sorted by offset the early stop loses nothing: the scan
      returns exactly the segs the window meets, in order, each loaded. */
  lemma {:induction false} ScanFindsAllHits(store: seq<byte>, segs: seq<Seg>, off: nat, size: nat)
    requires SortedByOff(segs)
    ensures Scan(store, segs, off, size) == LoadAll(store, Hits(segs, off, size))
  {
    if |segs| > 0 {
      var s := segs[0];
      SortedByOffTail(segs);
      if End(s) <= off {
        ScanFindsAllHits(store, segs[1..], off, size);
      } else if s.off >= off + size {
        NoHitsPast(segs[1..], off, size);
        assert Hits(segs, off, size) == [];
      } else {
        ScanFindsAllHits(store, segs[1..], off, size);
        LoadAllCons(store, s, Hits(segs[1..], off, size));
      }
    }
  }

  lemma SortedByOffTail(segs: seq<Seg>)
    requires |segs| > 0 && SortedByOff(segs)
    ensures SortedByOff(segs[1..]) && forall i | 0 <= i < |segs| - 1 :: segs[0].off <= segs[1..][i].off
  {
  }

  /** Loading distributes over a list built from its first seg. */
  lemma LoadAllCons(store: seq<byte>, s: Seg, rest: seq<Seg>)
    ensures LoadAll(store, [s] + rest) == [Load(store, s)] + LoadAll(store, rest)
  {
  }

  /** The same for the shard: on a list sorted by offset, `ReadAt` returns
      exactly the intersecting segs. */
  lemma ReadAtFindsAllHits(f: SegFile, off: nat, size: nat)
    requires SortedByOff(f.segs)
    ensures ReadAt(f, off, size) == LoadAll(f.store, Hits(f.segs, off, size))
  {
    ScanFindsAllHits(f.store, f.segs, off, size);
  }

  /** Without the ordering the early stop can lose a seg: a seg past the
      window in front of one inside it hides the latter. */
  lemma ScanMissesOutOfOrder()
    ensures var segs := [Seg(10, 5, 16, []), Seg(0, 5, 37, [])];
            Scan([], segs, 0, 5) == [] && |Hits(segs, 0, 5)| == 1
  {
    var segs := [Seg(10, 5, 16, []), Seg(0, 5, 37, [])];
    assert Hits(segs[1..], 0, 5) == [segs[1]];
  }

  /** A scan of a list sorted by (offset, length) is sorted the same way. */
  lemma {:induction false} ScanSorted(store: seq<byte>, segs: seq<Seg>, off: nat, size: nat)
    requires SortedByKey(segs)
    ensures SortedByKey(Scan(store, segs, off, size))
  {
    if |segs| > 0 {
      var s := segs[0];
      assert SortedByKey(segs[1..]);
      ScanSorted(store, segs[1..], off, size);
      if End(s) > off && s.off < off + size {
        var rest := Scan(store, segs[1..], off, size);
        var r := [Load(store, s)] + rest;
        forall i, j | 0 <= i < j < |r|
          ensures KeyLe(r[i], r[j])
        {
          if i == 0 {
            assert r[j] in rest;
            var t :| t in segs[1..] && Intersects(t, off, size) && r[j] == Load(store, t);
            var p :| 0 <= p < |segs[1..]| && segs[1..][p] == t;
            assert KeyLe(segs[0], segs[p + 1]);
          } else {
            assert r[i] == rest[i - 1] && r[j] == rest[j - 1];
          }
        }
      }
    }
  }

  // ---------------------------------------------------- replay consistency

  /** The in-memory descriptors and cursor are what replaying the store
      would rebuild. */
  ghost predicate Replays(f: SegFile) {
    Open(f.store).segs == f.segs && Open(f.store).cursor == f.cursor
  }

  /** Replay only looks at the header bytes it reads, all of which lie before
      where it stops: a store that agrees with `s` up to that point replays
      the same way up to that point. */
  lemma {:induction false} ReplayPrefix(s: seq<byte>, t: seq<byte>, at: nat, segs: seq<Seg>, size: nat, c: nat)
    requires c == Min(ReplayFrom(s, at, segs, size).cursor, |s|)
    requires c <= |t| && t[..c] == s[..c]
    ensures var r := ReplayFrom(s, at, segs, size);
            ReplayFrom(t, at, segs, size) == ReplayFrom(t, r.cursor, r.segs, r.size)
    decreases |s| - at
  {
    match HeaderAt(s, at)
    case None =>
      assert ReplayFrom(s, at, segs, size) == SegFile(s, size, at, segs);
    case Some(h) =>
      ReplayRecord(s, at, segs, size, h);
      ReplayAgrees(s, t, at, segs, size, c, h);
      ReplayPrefix(s, t, at + HeaderSize + h.size, segs + [Seg(h.off, h.size, at + HeaderSize, [])], h.off + h.size, c);
  }

  /** Replay reads the record whose header sits at `at` and goes on past its
      payload. */
  lemma ReplayRecord(s: seq<byte>, at: nat, segs: seq<Seg>, size: nat, h: Header)
    requires HeaderAt(s, at) == Some(h)
    ensures var r := ReplayFrom(s, at, segs, size);
            r == ReplayFrom(s, at + HeaderSize + h.size, segs + [Seg(h.off, h.size, at + HeaderSize, [])], h.off + h.size) &&
            at + HeaderSize + h.size <= r.cursor && at + HeaderSize <= |s|
  {
  }

  /** A store that agrees with `s` on a prefix holding the header at `at`
      reads the same record there. */
  lemma ReplayAgrees(s: seq<byte>, t: seq<byte>, at: nat, segs: seq<Seg>, size: nat, c: nat, h: Header)
    requires HeaderAt(s, at) == Some(h)
    requires at + HeaderSize <= c <= |s| && c <= |t| && t[..c] == s[..c]
    ensures ReplayFrom(t, at, segs, size) ==
            ReplayFrom(t, at + HeaderSize + h.size, segs + [Seg(h.off, h.size, at + HeaderSize, [])], h.off + h.size)
  {
    HeaderAgrees(s, t, at, c);
  }

  /** Two stores that agree on their first `c` bytes read the same header
      at any position whose header lies within them. */
  lemma HeaderAgrees(s: seq<byte>, t: seq<byte>, at: nat, c: nat)
    requires at + HeaderSize <= c <= |s| && c <= |t| && t[..c] == s[..c]
    ensures HeaderAt(t, at) == HeaderAt(s, at)
  {
    assert t[at..at + HeaderSize] == t[..c][at..at + HeaderSize] == s[..c][at..at + HeaderSize] == s[at..at + HeaderSize];
  }

  /** Appending a record keeps the descriptors replayable: reopening the store
      written by `WriteAt` rebuilds the same descriptors and cursor, and a
      size equal to the end of the record just written. */
  lemma WriteAtReplays(f: SegFile, b: seq<byte>, off: nat)
    requires off <= MaxInt64 && |b| <= MaxInt64
    requires Replays(f)
    ensures Replays(WriteAt(f, b, off))
    ensures Open(WriteAt(f, b, off).store).size == off + |b|
  {
    var w := WriteAt(f, b, off);
    var r := Open(f.store);
    WrittenRecord(f, b, off);
    ReplayPrefix(f.store, w.store, 0, [], 0, Min(f.cursor, |f.store|));
    assert Open(w.store) == ReplayFrom(w.store, f.cursor, f.segs, r.size);
    ReplayOneRecord(w.store, f.cursor, f.segs, r.size, Header(off, |b|));
  }

  /** The store `WriteAt` leaves behind keeps the replayed part of the old
      store and ends with the one record just written. */
  lemma WrittenRecord(f: SegFile, b: seq<byte>, off: nat)
    requires off <= MaxInt64 && |b| <= MaxInt64
    requires Replays(f)
    ensures var w := WriteAt(f, b, off);
            var c := Min(f.cursor, |f.store|);
            c <= |w.store| && w.store[..c] == f.store[..c] &&
            EncodableHeader(Header(off, |b|)) &&
            f.cursor + HeaderSize <= |w.store| < f.cursor + HeaderSize + |b| + HeaderSize &&
            w.store[f.cursor..f.cursor + HeaderSize] == EncodeHeader(Header(off, |b|))
  {
    assert Open(f.store).cursor == f.cursor;
  }

  /** A store that ends with one complete record at `at` replays that record
      and stops. */
  lemma ReplayOneRecord(t: seq<byte>, at: nat, segs: seq<Seg>, size: nat, h: Header)
    requires EncodableHeader(h)
    requires at + HeaderSize <= |t| < at + HeaderSize + h.size + HeaderSize
    requires t[at..at + HeaderSize] == EncodeHeader(h)
    ensures ReplayFrom(t, at, segs, size) ==
            SegFile(t, h.off + h.size, at + HeaderSize + h.size, segs + [Seg(h.off, h.size, at + HeaderSize, [])])
  {
    HeaderAtEncoded(t, at, h);
    var next := at + HeaderSize + h.size;
    assert HeaderAt(t, next) == None;
  }

  /** The size a shard keeps in memory after a write agrees with the size a
      reopen computes exactly when the write starts at the current size. */
  lemma WriteAtSizeAgreesOnReopen(f: SegFile, b: seq<byte>, off: nat)
    requires off <= MaxInt64 && |b| <= MaxInt64
    requires Replays(f)
    ensures Open(WriteAt(f, b, off).store).size == WriteAt(f, b, off).size <==> off == f.size
  {
    WriteAtReplays(f, b, off);
  }

  /** Any sequence of writes to a replayable shard leaves it replayable; in
      particular, starting from a new, empty store. */
  lemma {:induction false} WriteAllReplays(f: SegFile, ws: seq<Write>)
    requires forall i | 0 <= i < |ws| :: ValidWrite(ws[i])
    requires Replays(f)
    ensures Replays(WriteAll(f, ws))
    decreases |ws|
  {
    if |ws| > 0 {
      WriteAtReplays(f, ws[0].data, ws[0].off);
      WriteAllReplays(WriteAt(f, ws[0].data, ws[0].off), ws[1..]);
    }
  }

  /** A freshly opened store is replayable, whatever it holds. This is a
      fact about the model's replay, which always terminates; Go's replay can
      loop on a corrupt length field, because its cursor wraps modulo 2^64. */
  lemma OpenReplays(store: seq<byte>)
    ensures Replays(Open(store))
  {
  }

  /** A trailing header shorter than 16 bytes (a torn write) is ignored:
      replay stops before it with the same descriptors and cursor. */
  lemma TornHeaderIgnored(f: SegFile, torn: seq<byte>)
    requires Replays(f) && f.cursor == |f.store|
    requires |torn| < HeaderSize
    ensures Open(f.store + torn).segs == f.segs
    ensures Open(f.store + torn).cursor == f.cursor
  {
    var t := f.store + torn;
    assert t[..|f.store|] == f.store;
    ReplayPrefix(f.store, t, 0, [], 0, |f.store|);
    assert HeaderAt(t, f.cursor) == None;
  }

  /** A log built by writes from an empty store, with a torn header at its
      end, reopens to the descriptors and cursor the writes left: the torn
      tail is ignored (mergefs.go:180-188). */
  lemma TornTailAfterWrites(ws: seq<Write>, torn: seq<byte>)
    requires forall i | 0 <= i < |ws| :: ValidWrite(ws[i])
    requires |torn| < HeaderSize
    ensures var f := WriteAll(Open([]), ws);
            Open(f.store + torn).segs == f.segs && Open(f.store + torn).cursor == f.cursor
  {
    OpenReplays([]);
    WriteAllReplays(Open([]), ws);
    WriteAllTight(Open([]), ws);
    TornHeaderIgnored(WriteAll(Open([]), ws), torn);
  }

  /** Writes to a store whose records end exactly at the cursor keep it so. */
  lemma {:induction false} WriteAllTight(f: SegFile, ws: seq<Write>)
    requires forall i | 0 <= i < |ws| :: ValidWrite(ws[i])
    requires f.cursor == |f.store|
    ensures WriteAll(f, ws).cursor == |WriteAll(f, ws).store|
    decreases |ws|
  {
    if |ws| > 0 {
      WriteAllTight(WriteAt(f, ws[0].data, ws[0].off), ws[1..]);
    }
  }
}
