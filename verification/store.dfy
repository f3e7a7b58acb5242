/** The backing store of one shard: a random-access byte sequence that
    supports positioned writes and positioned reads, the two operations the
    shard log asks of its file (mergefs.go:180, 213-214, 233). */
module Store {

  type byte = b: nat | b < 256

  function Min(x: nat, y: nat): nat { if x <= y then x else y }
  function Max(x: nat, y: nat): nat { if x <= y then y else x }

  function Zeros(n: nat): (r: seq<byte>)
    ensures |r| == n
    ensures forall i | 0 <= i < n :: r[i] == 0
  {
    seq(n, _ => 0)
  }

  /** A positioned write: `bytes` lands at `[at, at+|bytes|)`, bytes outside
      that range keep their value, and a write past the end first fills the
      gap with zero bytes (a file hole). An empty write past the end writes
      nothing at all, so it is not a case of this function. */
  function WriteBytes(store: seq<byte>, at: nat, bytes: seq<byte>): (r: seq<byte>)
    requires |bytes| > 0 || at <= |store|
    ensures |r| == Max(|store|, at + |bytes|)
    ensures r[at..at + |bytes|] == bytes
    ensures forall i | 0 <= i < |store| && (i < at || at + |bytes| <= i) :: r[i] == store[i]
    ensures forall i | |store| <= i < at :: r[i] == 0
  {
    if at <= |store| then
      store[..at] + bytes + (if at + |bytes| < |store| then store[at + |bytes|..] else [])
    else
      store + Zeros(at - |store|) + bytes
  }

  /** A positioned read into a fresh zeroed buffer of `size` bytes: what the
      store holds from `at` on is copied, the part past the end stays zero. */
  function ReadBytes(store: seq<byte>, at: nat, size: nat): (r: seq<byte>)
    ensures |r| == size
    ensures forall i | 0 <= i < size :: r[i] == if at + i < |store| then store[at + i] else 0
  {
    if at + size <= |store| then store[at..at + size]
    else if at < |store| then store[at..] + Zeros(at + size - |store|)
    else Zeros(size)
  }

  /** A read that lies wholly inside the store returns the stored bytes. */
  lemma ReadInside(store: seq<byte>, at: nat, size: nat)
    requires at + size <= |store|
    ensures ReadBytes(store, at, size) == store[at..at + size]
  {
  }

  /** A slice of a slice is a slice of the original. */
  lemma SliceOfSlice(s: seq<byte>, lo: nat, hi: nat, a: nat, b: nat)
    requires lo <= hi <= |s| && a <= b <= hi - lo
    ensures s[lo..hi][a..b] == s[lo + a..lo + b]
  {
    forall i | 0 <= i < b - a
      ensures s[lo..hi][a..b][i] == s[lo + a..lo + b][i]
    {
    }
  }

  /** Two adjacent slices join into one. */
  lemma SliceJoin(s: seq<byte>, a: nat, b: nat, c: nat)
    requires a <= b <= c <= |s|
    ensures s[a..b] + s[b..c] == s[a..c]
  {
  }
}
