/*
  SnapshotCollection: the chain of diffs a backup archive carries, and the
  fold that rebuilds the state of the tree at a given date.
*/
module SnapshotCollections {
  import opened Snapshots
  import opened PatchProperties
  import opened SyncProperties
  import Wrappers

  // ------------------------------------------------------ ordering

  /** Inserts `x` after every element of `s` dated no later than it. */
  function InsertByDate(s: seq<Snapshot>, x: Snapshot): (r: seq<Snapshot>)
    ensures |r| == |s| + 1
    ensures multiset(r) == multiset(s) + multiset{x}
  {
    if s == [] || Last(s).date <= x.date then s + [x]
    else
      var r := InsertByDate(Init(s), x) + [Last(s)];
      assert s == Init(s) + [Last(s)];
      r
  }

  /** `OrderBy(s => s.Date)`: a stable sort by date. */
  function OrderByDate(ss: seq<Snapshot>): (r: seq<Snapshot>)
    ensures |r| == |ss|
  {
    if ss == [] then [] else InsertByDate(OrderByDate(Init(ss)), Last(ss))
  }

  predicate DateOrdered(s: seq<Snapshot>) {
    forall i, j | 0 <= i < j < |s| :: s[i].date <= s[j].date
  }

  /** The snapshots of `s` dated `d`, in order. */
  function WithDate(s: seq<Snapshot>, d: int): (r: seq<Snapshot>)
    ensures |r| <= |s|
  {
    if s == [] then []
    else WithDate(Init(s), d) + (if Last(s).date == d then [Last(s)] else [])
  }

  /** `Where(s => s.Date <= end)`. */
  function UpTo(s: seq<Snapshot>, end: int): (r: seq<Snapshot>)
    ensures |r| <= |s|
  {
    if s == [] then []
    else UpTo(Init(s), end) + (if Last(s).date <= end then [Last(s)] else [])
  }

  // ------------------------------------------------------ the fold

  /** Applies the diffs in turn; `None` when a Patch would throw (a
      duplicate carried path, or a Move without a source). */
  function PatchAll(res: Snapshot, ss: seq<Snapshot>): Wrappers.Option<Snapshot> {
    if ss == [] then Wrappers.Some(res) else PatchStep(PatchAll(res, Init(ss)), Last(ss))
  }

  /** One `res = res.Patch(snap)`, failing once failed. */
  function PatchStep(o: Wrappers.Option<Snapshot>, x: Snapshot): Wrappers.Option<Snapshot> {
    match o
    case None => Wrappers.None
    case Some(r) => if CanPatch(r, x) then Wrappers.Some(Patched(r, x)) else Wrappers.None
  }

  /** The chain in date order, its seed (the earliest snapshot, or a fresh
      empty one dated by the clock), and the snapshots applied to it. */
  function Seed(ordered: seq<Snapshot>, now: int): Snapshot {
    if ordered == [] then Snapshot(now, []) else ordered[0]
  }

  /** BuildSnapshot as a function. Once at least one diff dated no later
      than `end` is applied, the state is an untagged snapshot dated no
      later than `end`. */
  function Build(ss: seq<Snapshot>, end: int, now: int): (r: Wrappers.Option<Snapshot>)
    ensures r.Some? && UpTo(OrderByDate(ss), end) != [] ==> r.value.date <= end && AllNone(r.value.entries)
  {
    var ordered := OrderByDate(ss);
    var applied := UpTo(ordered, end);
    if applied == [] then PatchAll(Seed(ordered, now), applied)
    else
      PatchAllLast(Seed(ordered, now), applied);
      UpToBefore(ordered, end);
      assert Last(applied) in applied;
      PatchAll(Seed(ordered, now), applied)
  }

  /** A fold that applied at least one diff ends at the last diff's date. */
  lemma {:induction false} PatchAllLast(res: Snapshot, ss: seq<Snapshot>)
    requires ss != []
    ensures var r := PatchAll(res, ss);
            r.Some? ==> r.value.date == Last(ss).date && AllNone(r.value.entries)
  {
  }

  lemma {:induction false} UpToBefore(s: seq<Snapshot>, end: int)
    ensures forall x | x in UpTo(s, end) :: x.date <= end
    decreases |s|
  {
    if s != [] {
      UpToBefore(Init(s), end);
    }
  }

  lemma {:induction false} UpToNext(s: seq<Snapshot>, end: int, k: nat)
    requires k < |s|
    ensures s[k].date <= end ==> UpTo(s[..k + 1], end) == UpTo(s[..k], end) + [s[k]]
    ensures end < s[k].date ==> UpTo(s[..k + 1], end) == UpTo(s[..k], end)
  {
    assert Init(s[..k + 1]) == s[..k];
    assert UpTo(s[..k], end) + [] == UpTo(s[..k], end);
  }

  lemma {:induction false} PatchAllNext(res: Snapshot, ss: seq<Snapshot>, x: Snapshot)
    ensures PatchAll(res, ss + [x]) == PatchStep(PatchAll(res, ss), x)
  {
    assert Init(ss + [x]) == ss;
  }

  /** A collection of snapshots: the archive it belongs to and the chain. */
  class SnapshotCollection {
    var archivePath: Wrappers.Option<string>
    var snapshots: seq<Snapshot>

    /** A fresh, empty collection for the given archive. */
    constructor (archivePath: Wrappers.Option<string>)
      ensures this.archivePath == archivePath && snapshots == []
    {
      this.archivePath := archivePath;
      snapshots := [];
    }

    /** `Load`: a missing file gives an empty collection for the archive;
        a stored `null` gives an empty collection with no archive path;
        otherwise the stored collection. */
    constructor Load(stored: StoredChain, archivePath: string)
      ensures stored.Missing? ==> this.archivePath == Wrappers.Some(archivePath) && snapshots == []
      ensures stored.NullDocument? ==> this.archivePath == Wrappers.None && snapshots == []
      ensures stored.Stored? ==> this.archivePath == stored.archivePath && snapshots == stored.snapshots
    {
      match stored
      case Missing =>
        this.archivePath := Wrappers.Some(archivePath);
        snapshots := [];
      case NullDocument =>
        this.archivePath := Wrappers.None;
        snapshots := [];
      case Stored(path, chain) =>
        this.archivePath := path;
        snapshots := chain;
    }

    /** `Snapshots.Add`: appends one diff to the chain. */
    method Append(s: Snapshot)
      modifies this
      ensures snapshots == old(snapshots) + [s]
      ensures archivePath == old(archivePath)
    {
      snapshots := snapshots + [s];
    }

    /** `BuildSnapshot(end)`: seeds with the earliest snapshot and patches
        it with every snapshot dated no later than `end`, in date order.
        The chain itself is left as it is. `now` is the clock a fresh
        snapshot is dated by. */
    method BuildSnapshot(end: int, now: int) returns (res: Wrappers.Option<Snapshot>)
      ensures res == Build(snapshots, end, now)
    {
      var ordered := OrderByDate(snapshots);
      var cur := Seed(ordered, now);
      var k := 0;
      while k < |ordered|
        invariant 0 <= k <= |ordered|
        invariant PatchAll(Seed(ordered, now), UpTo(ordered[..k], end)) == Wrappers.Some(cur)
      {
        FoldNext(Seed(ordered, now), ordered, end, k);
        if ordered[k].date <= end {
          if !CanPatch(cur, ordered[k]) {
            BuildFails(Seed(ordered, now), ordered, end, k + 1);
            return Wrappers.None;
          }
          cur := Patch(cur, ordered[k]);
        }
        k := k + 1;
      }
      assert ordered[..k] == ordered;
      res := Wrappers.Some(cur);
    }
  }

  /** What `Load` finds on disk. */
  datatype StoredChain =
    | Missing
    | NullDocument
    | Stored(archivePath: Wrappers.Option<string>, snapshots: seq<Snapshot>)

  /** One more snapshot of the chain in the fold. */
  lemma {:induction false} FoldNext(seed: Snapshot, s: seq<Snapshot>, end: int, k: nat)
    requires k < |s|
    ensures PatchAll(seed, UpTo(s[..k + 1], end)) ==
            if s[k].date <= end then PatchStep(PatchAll(seed, UpTo(s[..k], end)), s[k])
            else PatchAll(seed, UpTo(s[..k], end))
  {
    UpToNext(s, end, k);
    if s[k].date <= end {
      PatchAllNext(seed, UpTo(s[..k], end), s[k]);
    }
  }

  /** Once a patch fails, the fold stays failed. */
  lemma {:induction false} BuildFails(seed: Snapshot, s: seq<Snapshot>, end: int, k: nat)
    requires k <= |s|
    requires PatchAll(seed, UpTo(s[..k], end)) == Wrappers.None
    ensures PatchAll(seed, UpTo(s, end)) == Wrappers.None
    decreases |s| - k
  {
    if k < |s| {
      FoldNext(seed, s, end, k);
      BuildFails(seed, s, end, k + 1);
    } else {
      assert s[..k] == s;
    }
  }

  // ------------------------------------------------------ ordering properties

  lemma {:induction false} InsertOrdered(s: seq<Snapshot>, x: Snapshot)
    requires DateOrdered(s)
    ensures DateOrdered(InsertByDate(s, x))
    decreases |s|
  {
    if s != [] && x.date < Last(s).date {
      var z := Last(s);
      assert DateOrdered(Init(s));
      InsertOrdered(Init(s), x);
      forall y | y in Init(s) ensures y.date <= z.date {
        var i :| 0 <= i < |Init(s)| && Init(s)[i] == y;
        assert s[i] == y;
      }
      InsertBelow(Init(s), x, z.date);
      SnocOrdered(InsertByDate(Init(s), x), z);
    }
  }

  /** Inserting keeps every date under a bound. */
  lemma {:induction false} InsertBelow(s: seq<Snapshot>, x: Snapshot, bound: int)
    requires x.date <= bound && forall y | y in s :: y.date <= bound
    ensures forall y | y in InsertByDate(s, x) :: y.date <= bound
  {
    forall y | y in InsertByDate(s, x) ensures y.date <= bound {
      assert y in multiset(InsertByDate(s, x));
    }
  }

  lemma {:induction false} SnocOrdered(a: seq<Snapshot>, z: Snapshot)
    requires DateOrdered(a) && forall y | y in a :: y.date <= z.date
    ensures DateOrdered(a + [z])
  {
    var r := a + [z];
    forall i, j | 0 <= i < j < |r| ensures r[i].date <= r[j].date {
      if j == |a| {
        assert r[i] in a;
      } else {
        assert r[i] == a[i] && r[j] == a[j];
      }
    }
  }

  /** The chain is applied in ascending date order. */
  lemma {:induction false} OrderByDateOrdered(ss: seq<Snapshot>)
    ensures DateOrdered(OrderByDate(ss))
  {
    if ss != [] {
      OrderByDateOrdered(Init(ss));
      InsertOrdered(OrderByDate(Init(ss)), Last(ss));
    }
  }

  /** The sort is a permutation of the chain. */
  lemma {:induction false} OrderByDatePermutes(ss: seq<Snapshot>)
    ensures multiset(OrderByDate(ss)) == multiset(ss)
  {
    if ss != [] {
      OrderByDatePermutes(Init(ss));
      assert ss == Init(ss) + [Last(ss)];
    }
  }

  lemma {:induction false} WithDateAppend(a: seq<Snapshot>, b: seq<Snapshot>, d: int)
    ensures WithDate(a + b, d) == WithDate(a, d) + WithDate(b, d)
    decreases |b|
  {
    if b == [] {
      assert a + b == a;
    } else {
      assert Init(a + b) == a + Init(b);
      assert Last(a + b) == Last(b);
      WithDateAppend(a, Init(b), d);
    }
  }

  lemma {:induction false} InsertWithDate(s: seq<Snapshot>, x: Snapshot, d: int)
    ensures WithDate(InsertByDate(s, x), d) == WithDate(s, d) + (if x.date == d then [x] else [])
    decreases |s|
  {
    if s == [] || Last(s).date <= x.date {
      WithDateAppend(s, [x], d);
      assert WithDate([x], d) == (if x.date == d then [x] else []) by {
        assert Init([x]) == [];
      }
    } else {
      var a := WithDate(Init(s), d);
      var xs := if x.date == d then [x] else [];
      var ls := if Last(s).date == d then [Last(s)] else [];
      InsertWithDate(Init(s), x, d);
      WithDateAppend(InsertByDate(Init(s), x), [Last(s)], d);
      assert WithDate([Last(s)], d) == ls by {
        assert Init([Last(s)]) == [];
      }
      assert WithDate(InsertByDate(s, x), d) == (a + xs) + ls;
      assert WithDate(s, d) == a + ls;
      // x sorts before Last(s), so at most one of them has date d
      SwapEmpty(a, xs, ls);
    }
  }

  lemma {:induction false} SwapEmpty(a: seq<Snapshot>, xs: seq<Snapshot>, ls: seq<Snapshot>)
    requires xs == [] || ls == []
    ensures (a + xs) + ls == (a + ls) + xs
  {
    if xs == [] {
      assert a + xs == a;
    } else {
      assert a + ls == a;
    }
  }

  /** The sort is stable: snapshots of equal date keep their list order. */
  lemma {:induction false} OrderByDateStable(ss: seq<Snapshot>, d: int)
    ensures WithDate(OrderByDate(ss), d) == WithDate(ss, d)
  {
    if ss != [] {
      OrderByDateStable(Init(ss), d);
      InsertWithDate(OrderByDate(Init(ss)), Last(ss), d);
    }
  }

  lemma {:induction false} UpToMembers(s: seq<Snapshot>, end: int)
    ensures forall x :: x in UpTo(s, end) <==> x in s && x.date <= end
  {
    if s != [] {
      UpToMembers(Init(s), end);
      assert s == Init(s) + [Last(s)];
    }
  }

  lemma {:induction false} UpToAll(s: seq<Snapshot>, end: int)
    requires forall x | x in s :: x.date <= end
    ensures UpTo(s, end) == s
  {
    if s != [] {
      var i := Init(s);
      forall x | x in i ensures x.date <= end {
        var k :| 0 <= k < |i| && i[k] == x;
        assert s[k] == x;
      }
      UpToAll(i, end);
      assert Last(s) == s[|s| - 1];
      calc {
        UpTo(s, end);
        UpTo(i, end) + [Last(s)];
        i + [Last(s)];
        s;
      }
    }
  }

  lemma {:induction false} UpToNone(s: seq<Snapshot>, end: int)
    requires forall x | x in s :: end < x.date
    ensures UpTo(s, end) == []
  {
    if s != [] {
      assert forall x | x in Init(s) :: x in s;
      UpToNone(Init(s), end);
    }
  }

  lemma {:induction false} UpToFirst(s: seq<Snapshot>, end: int)
    requires s != [] && s[0].date <= end
    ensures UpTo(s, end) != [] && UpTo(s, end)[0] == s[0]
  {
    if |s| > 1 {
      UpToFirst(Init(s), end);
    } else {
      assert Init(s) == [];
    }
  }

  /** The last snapshot applied is the latest one dated no later than `end`. */
  lemma {:induction false} UpToLatest(s: seq<Snapshot>, end: int, x: Snapshot)
    requires DateOrdered(s) && x in s && x.date <= end
    ensures UpTo(s, end) != [] && x.date <= Last(UpTo(s, end)).date
  {
    if Last(s).date <= end {
      var k :| 0 <= k < |s| && s[k] == x;
      assert Last(s) == s[|s| - 1];
    } else {
      assert s == Init(s) + [Last(s)];
      UpToLatest(Init(s), end, x);
    }
  }

  lemma {:induction false} PatchAllApplied(res: Snapshot, ss: seq<Snapshot>, r: Snapshot)
    requires ss != [] && PatchAll(res, ss) == Wrappers.Some(r)
    ensures AllNone(r.entries) && r.date == Last(ss).date
  {
  }

  // ------------------------------------------------------ BuildSnapshot

  /** An empty chain builds an empty snapshot dated by the clock. */
  lemma {:induction false} BuildEmpty(end: int, now: int)
    ensures Build([], end, now) == Wrappers.Some(Snapshot(now, []))
  {
  }

  /** The earliest snapshot seeds the fold. */
  lemma {:induction false} SeedEarliest(ss: seq<Snapshot>, now: int)
    requires ss != []
    ensures Seed(OrderByDate(ss), now) in ss
    ensures forall s | s in ss :: Seed(OrderByDate(ss), now).date <= s.date
  {
    var o := OrderByDate(ss);
    OrderByDatePermutes(ss);
    OrderByDateOrdered(ss);
    assert o[0] in multiset(o);
    forall s | s in ss ensures o[0].date <= s.date {
      assert s in multiset(o);
      var k :| 0 <= k < |o| && o[k] == s;
      if k > 0 {
        assert o[0].date <= o[k].date;
      }
    }
  }

  /** With nothing dated up to `end`, the earliest snapshot comes back
      unpatched, actions and all. */
  lemma {:induction false} BuildNothingApplied(ss: seq<Snapshot>, end: int, now: int)
    requires ss != [] && forall s | s in ss :: end < s.date
    ensures Build(ss, end, now) == Wrappers.Some(Seed(OrderByDate(ss), now))
  {
    var o := OrderByDate(ss);
    OrderByDatePermutes(ss);
    forall x | x in o ensures end < x.date {
      assert x in multiset(o);
    }
    UpToNone(o, end);
  }

  /** When anything is dated up to `end`, the earliest snapshot is also the
      first diff applied, and the result is a state (every entry None)
      dated by the latest snapshot applied. */
  lemma {:induction false} BuildApplied(ss: seq<Snapshot>, end: int, now: int, x: Snapshot)
    requires x in ss && x.date <= end
    ensures var o := OrderByDate(ss);
            UpTo(o, end) != [] && UpTo(o, end)[0] == Seed(o, now)
    ensures Build(ss, end, now).Some? ==>
            var r := Build(ss, end, now).value;
            && AllNone(r.entries)
            && r.date <= end
            && (exists s | s in ss :: s.date == r.date)
            && x.date <= r.date
  {
    var o := OrderByDate(ss);
    OrderByDatePermutes(ss);
    OrderByDateOrdered(ss);
    SeedEarliest(ss, now);
    UpToFirst(o, end);
    assert x in multiset(o);
    UpToLatest(o, end, x);
    var u := UpTo(o, end);
    UpToMembers(o, end);
    assert Last(u) in u;
    assert Last(u) in multiset(o);
    if Build(ss, end, now).Some? {
      PatchAllApplied(Seed(o, now), u, Build(ss, end, now).value);
    }
  }

  /** A snapshot dated no earlier than the whole chain sorts last. */
  lemma {:induction false} OrderAppendLatest(ss: seq<Snapshot>, d: Snapshot)
    requires forall s | s in ss :: s.date <= d.date
    ensures OrderByDate(ss + [d]) == OrderByDate(ss) + [d]
  {
    var o := OrderByDate(ss);
    assert Init(ss + [d]) == ss && Last(ss + [d]) == d;
    if o != [] {
      OrderByDatePermutes(ss);
      assert Last(o) in multiset(o);
    }
  }

  /** A snapshot dated after the whole chain, and no later than `end2`,
      is applied last, on top of what the chain builds up to `end`. */
  lemma {:induction false} BuildAppendLatest(ss: seq<Snapshot>, d: Snapshot, end: int, end2: int, now: int, now2: int)
    requires ss != [] && forall s | s in ss :: s.date <= end && s.date <= d.date
    requires d.date <= end2
    ensures Build(ss + [d], end2, now2) == PatchStep(Build(ss, end, now), d)
  {
    var o := OrderByDate(ss);
    OrderAppendLatest(ss, d);
    OrderByDatePermutes(ss);
    forall x | x in o + [d] ensures x.date <= end2 {
      if x != d {
        assert x in multiset(o);
      }
    }
    forall x | x in o ensures x.date <= end {
      assert x in multiset(o);
    }
    UpToAll(o, end);
    UpToAll(o + [d], end2);
    assert Seed(o + [d], now2) == Seed(o, now);
    PatchAllNext(Seed(o, now), o, d);
  }

  /** Patching a state with its trimmed diff to a live listing gives the
      listing's paths. */
  lemma {:induction false} TrimmedRoundTrip(base: Snapshot, live: Snapshot, synced: int, trimmed: int)
    requires UniquePaths(base.entries) && AllNone(base.entries)
    requires NewPathsNewHashes(base.entries, live.entries)
    ensures var d := Trim(Syncronized(base, live, synced), trimmed);
            CanPatch(base, d) && Paths(Patched(base, d).entries) == Paths(live.entries)
  {
    var diff := Syncronized(base, live, synced);
    SyncPatchRoundTrip(base, live, synced);
    PatchTrimmed(base, diff, trimmed);
  }

  /** The first backup: an empty chain builds a fresh empty snapshot, the
      trimmed diff to the live listing tags every live entry Add, and the
      chain holding only that diff (both the seed and the one snapshot
      applied to it) builds to exactly the live listing's paths. */
  lemma {:induction false} FirstBackupRoundTrip(end: int, now: int, live: Snapshot, synced: int,
                             trimmed: int, end2: int, now2: int)
    requires UniquePaths(live.entries) && trimmed <= end2
    ensures Build([], end, now) == Wrappers.Some(Snapshot(now, []))
    ensures var d := Trim(Syncronized(Snapshot(now, []), live, synced), trimmed);
            var r := Build([d], end2, now2);
            r.Some? && Paths(r.value.entries) == Paths(live.entries)
  {
    BuildEmpty(end, now);
    var d := Trim(Syncronized(Snapshot(now, []), live, synced), trimmed);
    FirstDiff(live, synced, now, trimmed);
    AddsOntoThemselves(d);
    BuildSingle(d, end2, now2);
  }

  /** A chain of one snapshot dated up to `end` is that snapshot patched
      with itself. */
  lemma {:induction false} BuildSingle(d: Snapshot, end: int, now: int)
    requires d.date <= end
    ensures Build([d], end, now) == PatchStep(Wrappers.Some(d), d)
  {
    assert Init([d]) == [] && Last([d]) == d;
    assert OrderByDate([d]) == [d];
    assert UpTo([d], end) == [d];
    assert Seed([d], now) == d;
    assert PatchAll(d, [d]) == PatchStep(PatchAll(d, []), d);
  }

  /** The backup round trip: with `base` built from the whole chain, the
      trimmed diff to a live listing appended as the latest snapshot makes
      the chain build to exactly the live listing's paths, when no new live
      path shares a hash with a base entry. */
  lemma {:induction false} BackupRoundTrip(ss: seq<Snapshot>, end: int, now: int, base: Snapshot,
                        live: Snapshot, synced: int, trimmed: int, end2: int, now2: int)
    requires ss != [] && forall s | s in ss :: s.date <= end && s.date <= trimmed
    requires trimmed <= end2
    requires Build(ss, end, now) == Wrappers.Some(base)
    requires UniquePaths(base.entries) && NewPathsNewHashes(base.entries, live.entries)
    ensures var d := Trim(Syncronized(base, live, synced), trimmed);
            var r := Build(ss + [d], end2, now2);
            r.Some? && Paths(r.value.entries) == Paths(live.entries)
  {
    var d := Trim(Syncronized(base, live, synced), trimmed);
    // every snapshot is applied, so the base is a state
    assert ss[0] in ss;
    BuildApplied(ss, end, now, ss[0]);
    TrimmedRoundTrip(base, live, synced, trimmed);
    BuildAppendLatest(ss, d, end, end2, now, now2);
    var r := Build(ss + [d], end2, now2);
    assert r == PatchStep(Wrappers.Some(base), d);
    assert r == Wrappers.Some(Patched(base, d));
  }
}
