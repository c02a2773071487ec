/**
  Snapshot.cs: the entries of one file tree, and the three operations of the
  engine: `Syncronize` (mark the differences between a base state and a live
  listing), `Patch` (apply such a diff to a state) and `Trim` (keep only the
  tagged entries).

  Snapshots and entries are values here, so an operation can never change its
  arguments: the copy constructor `Entry(Entry)` is the identity on values.
  The source builds each result as a fresh list and then edits it in place
  through dictionaries that hold references into it; the methods below keep
  that shape, and each is proved equal to a function (a fold over the diff or
  the target) about which the properties are proved.
*/
module Snapshots {
  import Wrappers

  /** Snapshot.EntryAction. */
  datatype EntryAction = None | Add | Remove | Move

  /** Snapshot.Entry. `lastModified` is a DateTime in ticks, `hash` the
      opaque content digest, `moveFrom` is null except on a detected rename. */
  datatype Entry = Entry(
    action: EntryAction,
    hash: string,
    lastModified: int,
    length: int,
    moveFrom: Wrappers.Option<string>,
    path: string)

  /** A snapshot: its date (ticks) and its ordered entry list. */
  datatype Snapshot = Snapshot(date: int, entries: seq<Entry>)

  function Paths(es: seq<Entry>): set<string> {
    set e | e in es :: e.path
  }

  /** No two entries share a path (what `ToDictionary(e => e.Path)` demands). */
  predicate UniquePaths(es: seq<Entry>) {
    forall i, j | 0 <= i < j < |es| :: es[i].path != es[j].path
  }

  /** A state snapshot: every entry is untagged. */
  predicate AllNone(es: seq<Entry>) {
    forall e | e in es :: e.action == None
  }

  function Last<T>(s: seq<T>): T
    requires s != []
  {
    s[|s| - 1]
  }

  function Init<T>(s: seq<T>): seq<T>
    requires s != []
  {
    s[..|s| - 1]
  }

  lemma {:induction false} InitLast<T>(s: seq<T>)
    requires s != []
    ensures s == Init(s) + [Last(s)]
  {
  }

  lemma {:induction false} UniquePathsInit(es: seq<Entry>)
    requires es != [] && UniquePaths(es)
    ensures UniquePaths(Init(es)) && Last(es).path !in Paths(Init(es))
  {
  }

  lemma {:induction false} PathsAppend(a: seq<Entry>, b: seq<Entry>)
    ensures Paths(a + b) == Paths(a) + Paths(b)
  {
    assert forall e :: e in a + b <==> e in a || e in b;
  }

  /** `ToDictionary(e => e.Path)`: path -> position in the list. */
  function PathIndex(es: seq<Entry>): (m: map<string, nat>)
    requires UniquePaths(es)
    ensures m.Keys == Paths(es)
    ensures forall p | p in m :: m[p] < |es| && es[m[p]].path == p
  {
    if es == [] then map[]
    else
      UniquePathsInit(es);
      InitLast(es);
      PathIndex(Init(es))[Last(es).path := |es| - 1]
  }

  /** With unique paths, the index of a path is the one position holding it. */
  lemma {:induction false} PathIndexAt(es: seq<Entry>, i: nat)
    requires UniquePaths(es) && i < |es|
    ensures es[i].path in PathIndex(es) && PathIndex(es)[es[i].path] == i
  {
    assert es[i] in es;
  }

  // ---------------------------------------------------------------- Trim

  /** The entries whose action is not None, in their original order. */
  function Tagged(es: seq<Entry>): (r: seq<Entry>)
    ensures forall e :: e in r <==> e in es && e.action != None
    ensures |r| <= |es|
  {
    if es == [] then []
    else Tagged(Init(es)) + (if Last(es).action != None then [Last(es)] else [])
  }

  /** Snapshot.Trim: a new snapshot holding the tagged entries. The new
      snapshot is dated by the clock (`now`), as `new Snapshot()` is. */
  function Trim(s: Snapshot, now: int): (r: Snapshot)
    ensures r.date == now
    ensures forall e :: e in r.entries <==> e in s.entries && e.action != None
  {
    Snapshot(now, Tagged(s.entries))
  }

  // --------------------------------------------------------------- Patch

  /** The paths a diff tags Remove. */
  function RemovedPaths(diff: seq<Entry>): set<string> {
    set e | e in diff && e.action == Remove :: e.path
  }

  /** The entries Patch carries forward: those not at a removed path, reset to None. */
  function Carried(es: seq<Entry>, removed: set<string>): (r: seq<Entry>)
    ensures |r| <= |es|
    ensures AllNone(r)
    ensures Paths(r) == Paths(es) - removed
    ensures forall b | b in es && b.path !in removed :: b.(action := None) in r
  {
    if es == [] then []
    else
      InitLast(es);
      var tail := if Last(es).path !in removed then [Last(es).(action := None)] else [];
      PathsAppend(Init(es), [Last(es)]);
      PathsAppend(Carried(Init(es), removed), tail);
      Carried(Init(es), removed)
        + (if Last(es).path !in removed then [Last(es).(action := None)] else [])
  }

  lemma {:induction false} UniquePathsSnoc(es: seq<Entry>, e: Entry)
    requires UniquePaths(es) && e.path !in Paths(es)
    ensures UniquePaths(es + [e])
  {
    var r := es + [e];
    forall i, j | 0 <= i < j < |r| ensures r[i].path != r[j].path {
      if j == |es| {
        assert es[i] in es;
      }
    }
  }

  /** Carrying entries forward keeps their paths unique. */
  lemma {:induction false} CarriedUnique(es: seq<Entry>, removed: set<string>)
    ensures UniquePaths(es) ==> UniquePaths(Carried(es, removed))
  {
    if es != [] && UniquePaths(es) {
      UniquePathsInit(es);
      CarriedUnique(Init(es), removed);
      if Last(es).path !in removed {
        UniquePathsSnoc(Carried(Init(es), removed), Last(es).(action := None));
      }
    }
  }

  /** What Patch demands of its arguments: the carried entries have unique
      paths (`ToDictionary` throws otherwise), and every Move names its
      source (a null `MoveFrom` makes `TryGetValue` throw). */
  predicate CanPatch(self: Snapshot, diff: Snapshot)
    ensures UniquePaths(self.entries) && (forall e | e in diff.entries && e.action == Move :: e.moveFrom.Some?)
            ==> CanPatch(self, diff)
  {
    CarriedUnique(self.entries, RemovedPaths(diff.entries));
    && UniquePaths(Carried(self.entries, RemovedPaths(diff.entries)))
    && forall e | e in diff.entries && e.action == Move :: e.moveFrom.Some?
  }

  /** The positions a dictionary refers to lie inside the list. */
  predicate IndexInto(existing: map<string, nat>, res: seq<Entry>) {
    forall p | p in existing :: existing[p] < |res|
  }

  /** One iteration of Patch's Add loop (entries not tagged Add are skipped). */
  function AddStep(res: seq<Entry>, existing: map<string, nat>, e: Entry): (r: seq<Entry>)
    requires IndexInto(existing, res)
    ensures |r| == |res| + (if e.action == Add && e.path !in existing then 1 else 0)
    ensures forall j | 0 <= j < |res| :: r[j].path == res[j].path && r[j].lastModified >= res[j].lastModified
    ensures e.action == Add && e.path in existing ==> r[existing[e.path]].lastModified >= e.lastModified
    ensures e.action == Add && e.path !in existing ==> r[|res|].path == e.path && r[|res|].lastModified == e.lastModified
  {
    if e.action != Add then res
    else if e.path in existing then
      var i := existing[e.path];
      if res[i].lastModified < e.lastModified then res[i := res[i].(lastModified := e.lastModified)]
      else res
    else res + [e.(action := None)]
  }

  /** Patch's Add loop over `es`. */
  function ApplyAdds(res: seq<Entry>, existing: map<string, nat>, es: seq<Entry>): (r: seq<Entry>)
    requires IndexInto(existing, res)
    ensures |r| >= |res|
    ensures AllNone(res) ==> AllNone(r)
  {
    if es == [] then res
    else AddStep(ApplyAdds(res, existing, Init(es)), existing, Last(es))
  }

  /** One iteration of Patch's Move loop (entries not tagged Move are skipped). */
  function MoveStep(res: seq<Entry>, existing: map<string, nat>, e: Entry): (r: seq<Entry>)
    requires IndexInto(existing, res)
    requires e.action == Move ==> e.moveFrom.Some?
    ensures |r| == |res| + (if e.action == Move && e.moveFrom.value !in existing then 1 else 0)
    ensures e.action == Move ==>
              var j := if e.moveFrom.value in existing then existing[e.moveFrom.value] else |res|;
              j < |r| && r[j].path == e.path && r[j].lastModified == e.lastModified
    ensures e.action == Move && e.moveFrom.value in existing ==>
              forall j | 0 <= j < |res| && j != existing[e.moveFrom.value] :: r[j] == res[j]
  {
    if e.action != Move then res
    else if e.moveFrom.value in existing then
      var i := existing[e.moveFrom.value];
      res[i := res[i].(lastModified := e.lastModified, path := e.path)]
    else res + [e.(action := None)]
  }

  /** Patch's Move loop over `es`. */
  function ApplyMoves(res: seq<Entry>, existing: map<string, nat>, es: seq<Entry>): (r: seq<Entry>)
    requires IndexInto(existing, res)
    requires forall e | e in es && e.action == Move :: e.moveFrom.Some?
    ensures |r| >= |res|
    ensures AllNone(res) ==> AllNone(r)
  {
    if es == [] then res
    else
      assert Last(es) in es;
      MoveStep(ApplyMoves(res, existing, Init(es)), existing, Last(es))
  }

  lemma {:induction false} ApplyAddsNext(res: seq<Entry>, existing: map<string, nat>, es: seq<Entry>, k: nat)
    requires IndexInto(existing, res) && k < |es|
    ensures IndexInto(existing, ApplyAdds(res, existing, es[..k]))
    ensures ApplyAdds(res, existing, es[..k + 1]) == AddStep(ApplyAdds(res, existing, es[..k]), existing, es[k])
  {
    assert Init(es[..k + 1]) == es[..k];
  }

  lemma {:induction false} ApplyMovesNext(res: seq<Entry>, existing: map<string, nat>, es: seq<Entry>, k: nat)
    requires IndexInto(existing, res) && k < |es|
    requires forall e | e in es && e.action == Move :: e.moveFrom.Some?
    ensures IndexInto(existing, ApplyMoves(res, existing, es[..k]))
    ensures es[k].action == Move ==> es[k].moveFrom.Some?
    ensures ApplyMoves(res, existing, es[..k + 1]) == MoveStep(ApplyMoves(res, existing, es[..k]), existing, es[k])
  {
    assert Init(es[..k + 1]) == es[..k];
    assert es[k] in es;
  }

  /** Snapshot.Patch as a function: the next state. The `existing`
      dictionary is built once from the carried entries and is never updated,
      so appended and renamed entries are not found by later lookups. */
  function Patched(self: Snapshot, diff: Snapshot): (r: Snapshot)
    requires CanPatch(self, diff)
    ensures r.date == diff.date
    ensures AllNone(r.entries)
  {
    var carried := Carried(self.entries, RemovedPaths(diff.entries));
    var existing := PathIndex(carried);
    Snapshot(diff.date, ApplyMoves(ApplyAdds(carried, existing, diff.entries), existing, diff.entries))
  }

  /** Snapshot.Patch: the carried list is edited in place through `existing`,
      first by the diff's Add entries, then by its Move entries. */
  method Patch(self: Snapshot, target: Snapshot) returns (res: Snapshot)
    requires CanPatch(self, target)
    ensures res == Patched(self, target)
  {
    var removed := RemovedPaths(target.entries);
    var entries := Carried(self.entries, removed);
    var existing := PathIndex(entries);
    entries := PatchAdds(entries, existing, target.entries);
    entries := PatchMoves(entries, existing, target.entries);
    res := Snapshot(target.date, entries);
  }

  /** Patch's first loop: an Add for a known path raises its LastModified
      when newer; an Add for an unknown path appends an untagged copy. */
  method PatchAdds(carried: seq<Entry>, existing: map<string, nat>, diff: seq<Entry>) returns (entries: seq<Entry>)
    requires IndexInto(existing, carried)
    ensures entries == ApplyAdds(carried, existing, diff)
  {
    entries := carried;
    var k := 0;
    while k < |diff|
      invariant k <= |diff|
      invariant entries == ApplyAdds(carried, existing, diff[..k])
    {
      var entry := diff[k];
      ApplyAddsNext(carried, existing, diff, k);
      if entry.action == Add {
        if entry.path in existing {
          var i := existing[entry.path];
          if entries[i].lastModified < entry.lastModified {
            entries := entries[i := entries[i].(lastModified := entry.lastModified)];
          }
        } else {
          entries := entries + [entry.(action := None)];
        }
      }
      k := k + 1;
    }
    assert diff[..k] == diff;
  }

  /** Patch's second loop: a Move whose source is known renames that entry
      and takes the new LastModified; otherwise an untagged copy is appended. */
  method PatchMoves(start: seq<Entry>, existing: map<string, nat>, diff: seq<Entry>) returns (entries: seq<Entry>)
    requires IndexInto(existing, start)
    requires forall e | e in diff && e.action == Move :: e.moveFrom.Some?
    ensures entries == ApplyMoves(start, existing, diff)
  {
    entries := start;
    var k := 0;
    while k < |diff|
      invariant k <= |diff|
      invariant entries == ApplyMoves(start, existing, diff[..k])
    {
      var entry := diff[k];
      ApplyMovesNext(start, existing, diff, k);
      if entry.action == Move {
        var from := entry.moveFrom.value;
        if from in existing {
          var i := existing[from];
          entries := entries[i := entries[i].(lastModified := entry.lastModified, path := entry.path)];
        } else {
          entries := entries + [entry.(action := None)];
        }
      }
      k := k + 1;
    }
    assert diff[..k] == diff;
  }

  // ---------------------------------------------------------- Syncronize

  function HashCount(es: seq<Entry>, h: string): nat {
    if es == [] then 0
    else HashCount(Init(es), h) + (if Last(es).hash == h then 1 else 0)
  }

  function Hashes(es: seq<Entry>): set<string> {
    set e | e in es :: e.hash
  }

  /** The first position holding hash `h`. */
  function IndexOfHash(es: seq<Entry>, h: string): (i: nat)
    requires h in Hashes(es)
    ensures i < |es| && es[i].hash == h
  {
    if es[0].hash == h then 0
    else
      assert forall e | e in es && e != es[0] :: e in es[1..];
      1 + IndexOfHash(es[1..], h)
  }

  lemma {:induction false} HashCountPositive(es: seq<Entry>, i: nat)
    requires i < |es|
    ensures HashCount(es, es[i].hash) >= 1
  {
    if i < |es| - 1 {
      HashCountPositive(Init(es), i);
    }
  }

  /** A hash counted once is held by exactly one position. */
  lemma {:induction false} HashCountOnce(es: seq<Entry>, i: nat, j: nat)
    requires i < |es| && j < |es| && es[i].hash == es[j].hash
    requires HashCount(es, es[i].hash) == 1
    ensures i == j
  {
    var n := |es| - 1;
    var h := es[i].hash;
    assert HashCount(es, h) == HashCount(Init(es), h) + (if es[n].hash == h then 1 else 0);
    if i < n {
      assert Init(es)[i] == es[i];
      HashCountPositive(Init(es), i);
    }
    if j < n {
      assert Init(es)[j] == es[j];
      HashCountPositive(Init(es), j);
    }
    if i < n && j < n {
      HashCountOnce(Init(es), i, j);
    }
  }

  /** The rename-candidate index: hash -> position of the one entry holding
      it; hashes shared by several entries are left out (the `GroupBy` /
      `Where` / `ToDictionary` pipeline of Syncronize). */
  function UniqueHashIndex(es: seq<Entry>): (m: map<string, nat>)
    ensures forall h :: h in m <==> h in Hashes(es) && HashCount(es, h) == 1
    ensures forall h | h in m :: m[h] < |es| && es[m[h]].hash == h
  {
    map h | h in Hashes(es) && HashCount(es, h) == 1 :: IndexOfHash(es, h)
  }

  /** The state of Syncronize's first loop. `copies` are the clones of the
      base entries, edited through the dictionaries; `consumed` holds the
      positions of the clones taken out of the result list by a rename
      (`res.Entries.Remove`); `added` the entries appended to it. The result
      list is the clones not consumed, in base order, then `added`. */
  datatype Work = Work(copies: seq<Entry>, consumed: set<nat>, added: seq<Entry>)

  predicate IndexesFit(w: Work, byPath: map<string, nat>, byHash: map<string, nat>) {
    IndexInto(byPath, w.copies) && IndexInto(byHash, w.copies)
  }

  /** One iteration of Syncronize's loop over the target entries. */
  function MarkStep(w: Work, byPath: map<string, nat>, byHash: map<string, nat>, t: Entry): (r: Work)
    requires IndexesFit(w, byPath, byHash)
    ensures |r.copies| == |w.copies| && forall j | 0 <= j < |w.copies| :: r.copies[j].path == w.copies[j].path
    ensures w.consumed <= r.consumed && w.added <= r.added && |r.added| <= |w.added| + 1
    ensures t.path !in byPath && t.hash !in byHash ==> r.added == w.added + [t.(action := Add)]
  {
    if t.path in byPath then
      var i := byPath[t.path];
      if w.copies[i].lastModified < t.lastModified then
        w.(copies := w.copies[i := w.copies[i].(lastModified := t.lastModified, action := Add)])
      else w
    else if t.hash in byHash then
      var i := byHash[t.hash];
      if w.copies[i].lastModified == t.lastModified then
        w.(consumed := w.consumed + {i},
           added := w.added + [t.(action := Move, moveFrom := Wrappers.Some(w.copies[i].path))])
      else w
    else w.(added := w.added + [t.(action := Add)])
  }

  /** Syncronize's loop over the target entries `ts`. */
  function MarkAll(w: Work, byPath: map<string, nat>, byHash: map<string, nat>, ts: seq<Entry>): (r: Work)
    requires IndexesFit(w, byPath, byHash)
    ensures |r.copies| == |w.copies|
  {
    if ts == [] then w
    else MarkStep(MarkAll(w, byPath, byHash, Init(ts)), byPath, byHash, Last(ts))
  }

  /** Syncronize's second loop: every clone whose path the target lacks is tagged Remove. */
  function MarkRemoved(copies: seq<Entry>, base: seq<Entry>, live: set<string>): (r: seq<Entry>)
    requires |copies| == |base|
    ensures |r| == |copies|
    ensures forall i | 0 <= i < |r| :: r[i].path == copies[i].path && r[i].lastModified == copies[i].lastModified
    ensures forall i | 0 <= i < |r| :: r[i].action == Remove <==> base[i].path !in live || copies[i].action == Remove
  {
    seq(|copies|, i requires 0 <= i < |copies| =>
      if base[i].path in live then copies[i] else copies[i].(action := Remove))
  }

  /** The clones still in the result list, in order. */
  function Survivors(copies: seq<Entry>, consumed: set<nat>): (r: seq<Entry>)
    ensures |r| <= |copies|
    ensures (forall i | 0 <= i < |copies| :: i in consumed) ==> r == []
  {
    if copies == [] then []
    else Survivors(Init(copies), consumed) + (if |copies| - 1 in consumed then [] else [Last(copies)])
  }

  lemma {:induction false} MarkAllNext(w: Work, byPath: map<string, nat>, byHash: map<string, nat>, ts: seq<Entry>, k: nat)
    requires IndexesFit(w, byPath, byHash) && k < |ts|
    ensures IndexesFit(MarkAll(w, byPath, byHash, ts[..k]), byPath, byHash)
    ensures MarkAll(w, byPath, byHash, ts[..k + 1]) == MarkStep(MarkAll(w, byPath, byHash, ts[..k]), byPath, byHash, ts[k])
  {
    assert Init(ts[..k + 1]) == ts[..k];
  }

  /** Snapshot.Syncronize as a function: the diff from `self` (the base) to
      `target` (the live listing), dated by the clock. */
  function Syncronized(self: Snapshot, target: Snapshot, now: int): (r: Snapshot)
    requires UniquePaths(self.entries)
    ensures r.date == now
  {
    var byPath := PathIndex(self.entries);
    var byHash := UniqueHashIndex(self.entries);
    var w := MarkAll(Work(self.entries, {}, []), byPath, byHash, target.entries);
    Snapshot(now, Survivors(MarkRemoved(w.copies, self.entries, Paths(target.entries)), w.consumed) + w.added)
  }

  /** Snapshot.Syncronize: the clones are edited in place through the
      path and hash dictionaries, renamed clones leave the result list and
      new entries are appended to it. */
  method Syncronize(self: Snapshot, target: Snapshot, now: int) returns (res: Snapshot)
    requires UniquePaths(self.entries)
    ensures res == Syncronized(self, target, now)
  {
    var byHash := UniqueHashIndex(self.entries);
    var byPath := PathIndex(self.entries);
    var merging := Paths(target.entries);
    var w := SyncMark(self.entries, byPath, byHash, target.entries);
    var copies := SyncRemoved(w.copies, self.entries, merging);
    res := Snapshot(now, Survivors(copies, w.consumed) + w.added);
  }

  /** Syncronize's loop over the target entries: a known path that is newer
      is tagged Add; an unknown path whose hash is a base entry's unique hash
      with the same LastModified replaces that entry by a Move; any other
      unknown path is appended tagged Add. */
  method SyncMark(base: seq<Entry>, byPath: map<string, nat>, byHash: map<string, nat>, target: seq<Entry>)
      returns (w: Work)
    requires IndexInto(byPath, base) && IndexInto(byHash, base)
    ensures w == MarkAll(Work(base, {}, []), byPath, byHash, target)
  {
    var copies := base;
    var consumed: set<nat> := {};
    var added: seq<Entry> := [];
    var k := 0;
    while k < |target|
      invariant k <= |target|
      invariant Work(copies, consumed, added) == MarkAll(Work(base, {}, []), byPath, byHash, target[..k])
    {
      var entry := target[k];
      MarkAllNext(Work(base, {}, []), byPath, byHash, target, k);
      if entry.path in byPath {
        var i := byPath[entry.path];
        if copies[i].lastModified < entry.lastModified {
          copies := copies[i := copies[i].(lastModified := entry.lastModified, action := Add)];
        }
      } else if entry.hash in byHash {
        var i := byHash[entry.hash];
        if copies[i].lastModified == entry.lastModified {
          consumed := consumed + {i};
          added := added + [entry.(action := Move, moveFrom := Wrappers.Some(copies[i].path))];
        }
      } else {
        added := added + [entry.(action := Add)];
      }
      k := k + 1;
    }
    assert target[..k] == target;
    w := Work(copies, consumed, added);
  }

  /** Syncronize's loop over the base entries: the clone of every base entry
      whose path the target lacks is tagged Remove. */
  method SyncRemoved(marked: seq<Entry>, base: seq<Entry>, merging: set<string>) returns (copies: seq<Entry>)
    requires |marked| == |base| && UniquePaths(base)
    ensures copies == MarkRemoved(marked, base, merging)
  {
    var byPath := PathIndex(base);
    copies := marked;
    var k := 0;
    while k < |base|
      invariant k <= |base| && |copies| == |base|
      invariant forall i | 0 <= i < k :: copies[i] == MarkRemoved(marked, base, merging)[i]
      invariant forall i | k <= i < |copies| :: copies[i] == marked[i]
    {
      var entry := base[k];
      PathIndexAt(base, k);
      if entry.path !in merging {
        var i := byPath[entry.path];
        copies := copies[i := copies[i].(action := Remove)];
      }
      k := k + 1;
    }
  }
}
