/**
  What `Snapshot.Syncronize` promises, proved about the function
  `Syncronized` that the method is shown equal to: the per-entry rules
  (update, keep, remove, add, rename, and the dropped mismatched rename),
  the empty diff of an unchanged tree, and the round trip through `Patch`.
*/
module SyncProperties {
  import opened Snapshots
  import opened PatchProperties
  import Wrappers

  /** The state of Syncronize after its loop over the target entries `ts`. */
  function Marked(base: seq<Entry>, ts: seq<Entry>): Work
    requires UniquePaths(base)
  {
    MarkAll(Work(base, {}, []), PathIndex(base), UniqueHashIndex(base), ts)
  }

  /** The newest LastModified among `lm` and the target entries at path `p`. */
  function NewestAt(ts: seq<Entry>, p: string, lm: int): (r: int)
    ensures r >= lm
    ensures forall t | t in ts && t.path == p :: r >= t.lastModified
    ensures r == lm || exists t | t in ts :: t.path == p && r == t.lastModified
  {
    if ts == [] then lm
    else
      var m := NewestAt(Init(ts), p, lm);
      InitLast(ts);
      if Last(ts).path == p && m < Last(ts).lastModified then Last(ts).lastModified else m
  }

  /** What Syncronize makes of a base entry whose path the target holds:
      tagged Add with the newest LastModified when the target is strictly
      newer (hash and length stay the base's), untouched otherwise. */
  function Updated(b: Entry, ts: seq<Entry>): Entry {
    var n := NewestAt(ts, b.path, b.lastModified);
    if n > b.lastModified then b.(lastModified := n, action := Add) else b
  }

  lemma {:induction false} NewestAtAbsent(ts: seq<Entry>, p: string, lm: int)
    requires p !in Paths(ts)
    ensures NewestAt(ts, p, lm) == lm
  {
    if ts != [] {
      assert Last(ts) in ts;
      assert Paths(Init(ts)) <= Paths(ts);
      NewestAtAbsent(Init(ts), p, lm);
    }
  }

  /** A path whose newest time is its own keeps it over every prefix of the target. */
  lemma {:induction false} NewestAtInit(ts: seq<Entry>, p: string, lm: int)
    requires ts != [] && NewestAt(ts, p, lm) == lm
    ensures NewestAt(Init(ts), p, lm) == lm
  {
  }

  lemma {:induction false} HashCountZero(es: seq<Entry>, h: string)
    requires h !in Hashes(es)
    ensures HashCount(es, h) == 0
  {
    if es != [] {
      assert Last(es) in es;
      assert Hashes(Init(es)) <= Hashes(es);
      HashCountZero(Init(es), h);
    }
  }

  // ----------------------------------------------- the loop over the target

  /** What Syncronize's two dictionaries say about the base: `byPath` finds
      every base path at its position, `byHash` finds exactly the hashes
      held by one base entry, at that entry's position. */
  predicate Indexes(base: seq<Entry>, byPath: map<string, nat>, byHash: map<string, nat>) {
    PathIndexes(base, byPath) && HashIndexes(base, byHash)
  }

  predicate PathIndexes(base: seq<Entry>, byPath: map<string, nat>) {
    && IndexInto(byPath, base)
    && (forall p | p in byPath :: base[byPath[p]].path == p)
    && (forall i | 0 <= i < |base| :: base[i].path in byPath && byPath[base[i].path] == i)
  }

  predicate HashIndexes(base: seq<Entry>, byHash: map<string, nat>) {
    && IndexInto(byHash, base)
    && (forall h | h in byHash :: base[byHash[h]].hash == h && HashCount(base, h) == 1)
    && (forall i | 0 <= i < |base| && HashCount(base, base[i].hash) == 1 ::
          base[i].hash in byHash && byHash[base[i].hash] == i)
  }

  lemma {:induction false} IndexesOf(base: seq<Entry>)
    requires UniquePaths(base)
    ensures Indexes(base, PathIndex(base), UniqueHashIndex(base))
  {
    var byPath := PathIndex(base);
    var byHash := UniqueHashIndex(base);
    forall i | 0 <= i < |base| ensures base[i].path in byPath && byPath[base[i].path] == i {
      PathIndexAt(base, i);
    }
    forall i | 0 <= i < |base| && HashCount(base, base[i].hash) == 1
      ensures base[i].hash in byHash && byHash[base[i].hash] == i
    {
      assert base[i] in base;
      HashCountOnce(base, i, byHash[base[i].hash]);
    }
  }

  lemma {:induction false} InitIn(ts: seq<Entry>)
    requires ts != []
    ensures forall u | u in Init(ts) :: u in ts
    ensures Last(ts) in ts
    ensures Paths(Init(ts)) <= Paths(ts)
    ensures forall u | u in ts :: u in Init(ts) || u == Last(ts)
  {
    InitLast(ts);
  }

  lemma {:induction false} SnocInit(ts: seq<Entry>, t: Entry)
    ensures ts + [t] != [] && Init(ts + [t]) == ts && Last(ts + [t]) == t
  {
  }

  lemma {:induction false} StepCopyAt(w: Work, byPath: map<string, nat>, byHash: map<string, nat>, base: seq<Entry>, ts: seq<Entry>, t: Entry, i: nat)
    requires PathIndexes(base, byPath) && IndexInto(byHash, base) && |w.copies| == |base| && i < |base|
    requires w.copies[i] == Updated(base[i], ts)
    ensures MarkStep(w, byPath, byHash, t).copies[i] == Updated(base[i], ts + [t])
  {
    SnocInit(ts, t);
    var b := base[i];
    var n := NewestAt(ts, b.path, b.lastModified);
    assert NewestAt(ts + [t], b.path, b.lastModified)
           == if t.path == b.path && n < t.lastModified then t.lastModified else n;
    if t.path == b.path {
      assert byPath[t.path] == i;
    } else if t.path in byPath {
      assert byPath[t.path] != i;
    }
  }

  /** One step keeps every clone equal to `Updated`. */
  lemma {:induction false} StepCopies(w: Work, byPath: map<string, nat>, byHash: map<string, nat>, base: seq<Entry>, ts: seq<Entry>, t: Entry)
    requires PathIndexes(base, byPath) && IndexInto(byHash, base) && |w.copies| == |base|
    requires forall i | 0 <= i < |base| :: w.copies[i] == Updated(base[i], ts)
    ensures |MarkStep(w, byPath, byHash, t).copies| == |base|
    ensures forall i | 0 <= i < |base| :: MarkStep(w, byPath, byHash, t).copies[i] == Updated(base[i], ts + [t])
  {
    forall i | 0 <= i < |base| ensures MarkStep(w, byPath, byHash, t).copies[i] == Updated(base[i], ts + [t]) {
      StepCopyAt(w, byPath, byHash, base, ts, t, i);
    }
  }

  /** The clones: each base entry becomes `Updated`, position by position. */
  lemma {:induction false} CopiesUpdated(base: seq<Entry>, byPath: map<string, nat>, byHash: map<string, nat>, ts: seq<Entry>)
    requires PathIndexes(base, byPath) && IndexInto(byHash, base)
    ensures |MarkAll(Work(base, {}, []), byPath, byHash, ts).copies| == |base|
    ensures forall i | 0 <= i < |base| :: MarkAll(Work(base, {}, []), byPath, byHash, ts).copies[i] == Updated(base[i], ts)
  {
    if ts != [] {
      CopiesUpdated(base, byPath, byHash, Init(ts));
      InitLast(ts);
      StepCopies(MarkAll(Work(base, {}, []), byPath, byHash, Init(ts)), byPath, byHash, base, Init(ts), Last(ts));
    }
  }

  lemma {:induction false} MarkedCopies(base: seq<Entry>, ts: seq<Entry>)
    requires UniquePaths(base)
    ensures |Marked(base, ts).copies| == |base|
    ensures forall i | 0 <= i < |base| :: Marked(base, ts).copies[i] == Updated(base[i], ts)
  {
    IndexesOf(base);
    CopiesUpdated(base, PathIndex(base), UniqueHashIndex(base), ts);
  }

  /** `e` is a target entry, retagged. */
  predicate FromTarget(e: Entry, ts: seq<Entry>) {
    exists t | t in ts :: e == t.(action := e.action, moveFrom := e.moveFrom)
  }

  /** What the loop may append: an entry at a path new to the base, tagged
      Add, or tagged Move when its hash is a unique base hash. */
  predicate AddedOk(base: seq<Entry>, ts: seq<Entry>, e: Entry) {
    && e.path !in Paths(base)
    && (e.action == Add || (e.action == Move && e.moveFrom.Some? && HashCount(base, e.hash) == 1))
    && FromTarget(e, ts)
  }

  /** Some appended Move names path `p` as its source. */
  predicate MovesFrom(added: seq<Entry>, p: string) {
    exists e | e in added :: e.action == Move && e.moveFrom == Wrappers.Some(p)
  }

  /** What the loop may append, and why a clone can be consumed. */
  predicate AddedFrom(base: seq<Entry>, ts: seq<Entry>, w: Work) {
    && (forall e | e in w.added :: AddedOk(base, ts, e))
    && (forall i | i in w.consumed :: i < |base| && MovesFrom(w.added, base[i].path))
  }

  lemma {:induction false} AddedOkGrows(base: seq<Entry>, ts: seq<Entry>, t: Entry, e: Entry)
    requires AddedOk(base, ts, e)
    ensures AddedOk(base, ts + [t], e)
  {
    var u :| u in ts && e == u.(action := e.action, moveFrom := e.moveFrom);
    assert u in ts + [t];
  }

  lemma {:induction false} StepAdded(w: Work, byPath: map<string, nat>, byHash: map<string, nat>, base: seq<Entry>, ts: seq<Entry>, t: Entry)
    requires Indexes(base, byPath, byHash) && |w.copies| == |base|
    requires forall i | 0 <= i < |base| :: w.copies[i].path == base[i].path
    requires AddedFrom(base, ts, w)
    ensures AddedFrom(base, ts + [t], MarkStep(w, byPath, byHash, t))
  {
    var w' := MarkStep(w, byPath, byHash, t);
    StepAddedNew(w, byPath, byHash, base, ts, t);
    StepGrows(w, byPath, byHash, t);
    forall e | e in w'.added ensures AddedOk(base, ts + [t], e) {
      if e in w.added {
        AddedOkGrows(base, ts, t, e);
      }
    }
    forall i | i in w'.consumed ensures i < |base| && MovesFrom(w'.added, base[i].path) {
      if i in w.consumed {
        var e :| e in w.added && e.action == Move && e.moveFrom == Wrappers.Some(base[i].path);
        assert e in w'.added;
      }
    }
  }

  /** The entry a step appends, and the clone it consumes, are accounted for. */
  lemma {:induction false} StepAddedNew(w: Work, byPath: map<string, nat>, byHash: map<string, nat>, base: seq<Entry>, ts: seq<Entry>, t: Entry)
    requires Indexes(base, byPath, byHash) && |w.copies| == |base|
    requires forall i | 0 <= i < |base| :: w.copies[i].path == base[i].path
    ensures forall e | e in MarkStep(w, byPath, byHash, t).added && e !in w.added :: AddedOk(base, ts + [t], e)
    ensures forall i | i in MarkStep(w, byPath, byHash, t).consumed && i !in w.consumed ::
      i < |base| && MovesFrom(MarkStep(w, byPath, byHash, t).added, base[i].path)
  {
    var w' := MarkStep(w, byPath, byHash, t);
    assert t in ts + [t];
    if t.path in byPath {
    } else if t.hash in byHash {
      var i := byHash[t.hash];
      if w.copies[i].lastModified == t.lastModified {
        var e := t.(action := Move, moveFrom := Wrappers.Some(w.copies[i].path));
        assert w'.added == w.added + [e];
        assert AddedOk(base, ts + [t], e);
        assert e in w'.added;
      }
    } else {
      var e := t.(action := Add);
      assert w'.added == w.added + [e];
      assert AddedOk(base, ts + [t], e);
    }
  }

  lemma {:induction false} AddedFromAll(base: seq<Entry>, byPath: map<string, nat>, byHash: map<string, nat>, ts: seq<Entry>)
    requires Indexes(base, byPath, byHash)
    ensures AddedFrom(base, ts, MarkAll(Work(base, {}, []), byPath, byHash, ts))
  {
    if ts != [] {
      AddedFromAll(base, byPath, byHash, Init(ts));
      CopiesUpdated(base, byPath, byHash, Init(ts));
      InitLast(ts);
      StepAdded(MarkAll(Work(base, {}, []), byPath, byHash, Init(ts)), byPath, byHash, base, Init(ts), Last(ts));
    }
  }

  /** What the loop appends: target entries at paths new to the base,
      tagged Add, or tagged Move when their hash is a unique base hash; and
      every consumed clone has a Move naming its path. */
  lemma {:induction false} MarkedAdded(base: seq<Entry>, ts: seq<Entry>)
    requires UniquePaths(base)
    ensures AddedFrom(base, ts, Marked(base, ts))
  {
    IndexesOf(base);
    AddedFromAll(base, PathIndex(base), UniqueHashIndex(base), ts);
  }

  /** The appended entries and the consumed clones only grow. */
  lemma {:induction false} StepGrows(w: Work, byPath: map<string, nat>, byHash: map<string, nat>, t: Entry)
    requires IndexesFit(w, byPath, byHash)
    ensures forall e | e in w.added :: e in MarkStep(w, byPath, byHash, t).added
    ensures w.consumed <= MarkStep(w, byPath, byHash, t).consumed
  {
  }

  /** A target entry at a new path whose hash is not held by exactly one
      base entry is appended tagged Add. */
  lemma {:induction false} AddsNew(base: seq<Entry>, byPath: map<string, nat>, byHash: map<string, nat>, ts: seq<Entry>, t: Entry)
    requires Indexes(base, byPath, byHash)
    requires t in ts && t.path !in Paths(base) && HashCount(base, t.hash) != 1
    ensures t.(action := Add) in MarkAll(Work(base, {}, []), byPath, byHash, ts).added
  {
    InitLast(ts);
    var prev := MarkAll(Work(base, {}, []), byPath, byHash, Init(ts));
    CopiesUpdated(base, byPath, byHash, Init(ts));
    StepGrows(prev, byPath, byHash, Last(ts));
    if t in Init(ts) {
      AddsNew(base, byPath, byHash, Init(ts), t);
    } else {
      assert t == Last(ts);
    }
  }

  lemma {:induction false} MarkedAddsNew(base: seq<Entry>, ts: seq<Entry>, t: Entry)
    requires UniquePaths(base)
    requires t in ts && t.path !in Paths(base) && HashCount(base, t.hash) != 1
    ensures t.(action := Add) in Marked(base, ts).added
  {
    IndexesOf(base);
    AddsNew(base, PathIndex(base), UniqueHashIndex(base), ts, t);
  }

  lemma {:induction false} StepRename(w: Work, byPath: map<string, nat>, byHash: map<string, nat>, base: seq<Entry>, t: Entry, i: nat)
    requires Indexes(base, byPath, byHash) && |w.copies| == |base| && i < |base| && w.copies[i] == base[i]
    requires t.path !in Paths(base)
    requires HashCount(base, base[i].hash) == 1 && t.hash == base[i].hash
    requires t.lastModified == base[i].lastModified
    ensures t.(action := Move, moveFrom := Wrappers.Some(base[i].path)) in MarkStep(w, byPath, byHash, t).added
    ensures i in MarkStep(w, byPath, byHash, t).consumed
  {
    assert byHash[t.hash] == i;
  }

  lemma {:induction false} Renames(base: seq<Entry>, byPath: map<string, nat>, byHash: map<string, nat>, ts: seq<Entry>, t: Entry, i: nat)
    requires Indexes(base, byPath, byHash) && i < |base|
    requires t in ts && t.path !in Paths(base)
    requires HashCount(base, base[i].hash) == 1 && t.hash == base[i].hash
    requires t.lastModified == base[i].lastModified && NewestAt(ts, base[i].path, base[i].lastModified) == base[i].lastModified
    ensures t.(action := Move, moveFrom := Wrappers.Some(base[i].path)) in MarkAll(Work(base, {}, []), byPath, byHash, ts).added
    ensures i in MarkAll(Work(base, {}, []), byPath, byHash, ts).consumed
  {
    InitIn(ts);
    NewestAtInit(ts, base[i].path, base[i].lastModified);
    var prev := MarkAll(Work(base, {}, []), byPath, byHash, Init(ts));
    StepGrows(prev, byPath, byHash, Last(ts));
    if t in Init(ts) {
      Renames(base, byPath, byHash, Init(ts), t, i);
    } else {
      CopiesUpdated(base, byPath, byHash, Init(ts));
      StepRename(prev, byPath, byHash, base, t, i);
    }
  }

  /** A target entry at a new path, with the hash and LastModified of the
      one base entry holding that hash, is appended as a Move from it and the
      clone is consumed, provided no target entry at the old path is newer
      (one handled first would raise the clone's LastModified). The old path
      may still be live: a copy is taken for a rename. */
  lemma {:induction false} MarkedRename(base: seq<Entry>, ts: seq<Entry>, t: Entry, i: nat)
    requires UniquePaths(base) && i < |base|
    requires t in ts && t.path !in Paths(base)
    requires HashCount(base, base[i].hash) == 1 && t.hash == base[i].hash
    requires t.lastModified == base[i].lastModified && NewestAt(ts, base[i].path, base[i].lastModified) == base[i].lastModified
    ensures t.(action := Move, moveFrom := Wrappers.Some(base[i].path)) in Marked(base, ts).added
    ensures i in Marked(base, ts).consumed
  {
    IndexesOf(base);
    Renames(base, PathIndex(base), UniqueHashIndex(base), ts, t, i);
  }

  /** One step appends at most an entry at the target entry's path. */
  lemma {:induction false} StepPaths(w: Work, byPath: map<string, nat>, byHash: map<string, nat>, t: Entry)
    requires IndexesFit(w, byPath, byHash)
    ensures Paths(MarkStep(w, byPath, byHash, t).added) <= Paths(w.added) + {t.path}
  {
    var added := MarkStep(w, byPath, byHash, t).added;
    if added != w.added {
      PathsSnoc(w.added, added[|w.added|]);
      assert added == w.added + [added[|w.added|]];
    }
  }

  /** A step on the mismatched target entry appends nothing. */
  lemma {:induction false} StepMismatch(w: Work, byPath: map<string, nat>, byHash: map<string, nat>, base: seq<Entry>, t: Entry, i: nat)
    requires Indexes(base, byPath, byHash) && |w.copies| == |base| && i < |base| && w.copies[i] == base[i]
    requires t.path !in Paths(base)
    requires HashCount(base, base[i].hash) == 1 && t.hash == base[i].hash
    requires t.lastModified != base[i].lastModified
    ensures MarkStep(w, byPath, byHash, t).added == w.added
  {
    assert byHash[t.hash] == i;
  }

  lemma {:induction false} Mismatch(base: seq<Entry>, byPath: map<string, nat>, byHash: map<string, nat>, ts: seq<Entry>, t: Entry, i: nat)
    requires Indexes(base, byPath, byHash) && i < |base|
    requires forall u | u in ts && u.path == t.path :: u == t
    requires t.path !in Paths(base)
    requires HashCount(base, base[i].hash) == 1 && t.hash == base[i].hash
    requires t.lastModified != base[i].lastModified && NewestAt(ts, base[i].path, base[i].lastModified) == base[i].lastModified
    ensures t.path !in Paths(MarkAll(Work(base, {}, []), byPath, byHash, ts).added)
  {
    if ts != [] {
      var init, u := Init(ts), Last(ts);
      InitIn(ts);
      NewestAtInit(ts, base[i].path, base[i].lastModified);
      Mismatch(base, byPath, byHash, init, t, i);
      var prev := MarkAll(Work(base, {}, []), byPath, byHash, init);
      assert MarkAll(Work(base, {}, []), byPath, byHash, ts) == MarkStep(prev, byPath, byHash, u);
      assert |prev.copies| == |base| && prev.copies[i] == base[i] by {
        CopiesUpdated(base, byPath, byHash, init);
      }
      if u.path == t.path {
        StepMismatch(prev, byPath, byHash, base, u, i);
      } else {
        StepPaths(prev, byPath, byHash, u);
      }
    }
  }

  /** The same, with a different LastModified: nothing is appended for
      that target path. */
  lemma {:induction false} MarkedMismatch(base: seq<Entry>, ts: seq<Entry>, t: Entry, i: nat)
    requires UniquePaths(base) && i < |base|
    requires forall u | u in ts && u.path == t.path :: u == t
    requires t.path !in Paths(base)
    requires HashCount(base, base[i].hash) == 1 && t.hash == base[i].hash
    requires t.lastModified != base[i].lastModified && NewestAt(ts, base[i].path, base[i].lastModified) == base[i].lastModified
    ensures t.path !in Paths(Marked(base, ts).added)
  {
    IndexesOf(base);
    Mismatch(base, PathIndex(base), UniqueHashIndex(base), ts, t, i);
  }

  // ------------------------------------------------------------ survivors

  lemma {:induction false} SurvivorsHas(c: seq<Entry>, consumed: set<nat>, i: nat)
    requires i < |c| && i !in consumed
    ensures c[i] in Survivors(c, consumed)
  {
    if i < |c| - 1 {
      SurvivorsHas(Init(c), consumed, i);
    }
  }

  lemma {:induction false} SurvivorsFrom(c: seq<Entry>, consumed: set<nat>)
    ensures forall e | e in Survivors(c, consumed) :: exists i :: 0 <= i < |c| && i !in consumed && c[i] == e
  {
    if c != [] {
      SurvivorsFrom(Init(c), consumed);
      var prev := Survivors(Init(c), consumed);
      forall e | e in Survivors(c, consumed) ensures exists i :: 0 <= i < |c| && i !in consumed && c[i] == e {
        if e in prev {
          var i :| 0 <= i < |Init(c)| && i !in consumed && Init(c)[i] == e;
          assert c[i] == e;
        } else {
          assert c[|c| - 1] == e;
        }
      }
    }
  }

  lemma {:induction false} SurvivorsNone(c: seq<Entry>)
    ensures Survivors(c, {}) == c
  {
    if c != [] {
      SurvivorsNone(Init(c));
      InitLast(c);
    }
  }

  /** The paths the result keeps from the base: those of the clones not consumed. */
  lemma {:induction false} SurvivorPaths(self: Snapshot, target: Snapshot)
    requires UniquePaths(self.entries)
    ensures forall e | e in Survivors(MarkRemoved(Marked(self.entries, target.entries).copies, self.entries, Paths(target.entries)),
                                      Marked(self.entries, target.entries).consumed) ::
      exists i :: 0 <= i < |self.entries| && i !in Marked(self.entries, target.entries).consumed && e.path == self.entries[i].path
  {
    var w := Marked(self.entries, target.entries);
    var c := MarkRemoved(w.copies, self.entries, Paths(target.entries));
    SurvivorsFrom(c, w.consumed);
    MarkedCopies(self.entries, target.entries);
    forall e | e in Survivors(c, w.consumed)
      ensures exists i :: 0 <= i < |self.entries| && i !in w.consumed && e.path == self.entries[i].path
    {
      var i :| 0 <= i < |c| && i !in w.consumed && c[i] == e;
      CopyPath(self, target, i);
    }
  }

  /** The copy of a base entry keeps its path, whether tagged Remove or not. */
  lemma {:induction false} CopyPath(self: Snapshot, target: Snapshot, i: nat)
    requires UniquePaths(self.entries) && i < |self.entries|
    ensures |Marked(self.entries, target.entries).copies| == |self.entries|
    ensures MarkRemoved(Marked(self.entries, target.entries).copies, self.entries, Paths(target.entries))[i].path
            == self.entries[i].path
  {
    MarkedCopies(self.entries, target.entries);
    var copies := Marked(self.entries, target.entries).copies;
    assert copies[i] == Updated(self.entries[i], target.entries);
  }

  // ------------------------------------------------ Syncronize, entry by entry

  /** A base path the target holds: its entry stays, tagged Add with the
      newest LastModified if the target is strictly newer and untouched
      otherwise, unless a rename consumed it. */
  lemma {:induction false} SyncInBoth(self: Snapshot, target: Snapshot, now: int, i: nat)
    requires UniquePaths(self.entries) && i < |self.entries|
    requires self.entries[i].path in Paths(target.entries)
    ensures var r := Syncronized(self, target, now).entries;
            Updated(self.entries[i], target.entries) in r || self.entries[i].path in MoveSources(r)
  {
    var w := Marked(self.entries, target.entries);
    var c := MarkRemoved(w.copies, self.entries, Paths(target.entries));
    var r := Syncronized(self, target, now).entries;
    MarkedCopies(self.entries, target.entries);
    MarkedAdded(self.entries, target.entries);
    if i in w.consumed {
      var e :| e in w.added && e.action == Move && e.moveFrom == Wrappers.Some(self.entries[i].path);
      assert e in r;
    } else {
      SurvivorsHas(c, w.consumed, i);
    }
  }

  /** A base path the target lacks stays in the result tagged Remove,
      unless a rename consumed it. */
  lemma {:induction false} SyncRemoves(self: Snapshot, target: Snapshot, now: int, i: nat)
    requires UniquePaths(self.entries) && i < |self.entries|
    requires self.entries[i].path !in Paths(target.entries)
    ensures var r := Syncronized(self, target, now).entries;
            self.entries[i].(action := Remove) in r || self.entries[i].path in MoveSources(r)
  {
    var w := Marked(self.entries, target.entries);
    var c := MarkRemoved(w.copies, self.entries, Paths(target.entries));
    var r := Syncronized(self, target, now).entries;
    MarkedCopies(self.entries, target.entries);
    MarkedAdded(self.entries, target.entries);
    NewestAtAbsent(target.entries, self.entries[i].path, self.entries[i].lastModified);
    if i in w.consumed {
      var e :| e in w.added && e.action == Move && e.moveFrom == Wrappers.Some(self.entries[i].path);
      assert e in r;
    } else {
      SurvivorsHas(c, w.consumed, i);
    }
  }

  /** A target path new to the base, whose hash is not held by exactly one
      base entry, is in the result tagged Add. */
  lemma {:induction false} SyncAddsNew(self: Snapshot, target: Snapshot, now: int, t: Entry)
    requires UniquePaths(self.entries)
    requires t in target.entries && t.path !in Paths(self.entries)
    requires HashCount(self.entries, t.hash) != 1
    ensures t.(action := Add) in Syncronized(self, target, now).entries
  {
    MarkedAddsNew(self.entries, target.entries, t);
  }

  /** Rename: a target path new to the base, with the hash and LastModified
      of the one base entry holding that hash, replaces that entry by a Move
      from its path, and the old path leaves the result. This holds whether
      or not the old path is still live (a copy with the original's
      LastModified is taken for a rename), as long as no live entry at the
      old path is newer than the base entry. */
  lemma {:induction false} SyncRenames(self: Snapshot, target: Snapshot, now: int, t: Entry, i: nat)
    requires UniquePaths(self.entries) && i < |self.entries|
    requires t in target.entries && t.path !in Paths(self.entries)
    requires HashCount(self.entries, self.entries[i].hash) == 1 && t.hash == self.entries[i].hash
    requires t.lastModified == self.entries[i].lastModified
    requires NewestAt(target.entries, self.entries[i].path, self.entries[i].lastModified) == self.entries[i].lastModified
    ensures var r := Syncronized(self, target, now).entries;
            && t.(action := Move, moveFrom := Wrappers.Some(self.entries[i].path)) in r
            && self.entries[i].path !in Paths(r)
  {
    var w := Marked(self.entries, target.entries);
    var c := MarkRemoved(w.copies, self.entries, Paths(target.entries));
    var s := Survivors(c, w.consumed);
    MarkedRename(self.entries, target.entries, t, i);
    MarkedAdded(self.entries, target.entries);
    SurvivorPaths(self, target);
    PathsAppend(s, w.added);
    assert self.entries[i] in self.entries;
    if self.entries[i].path in Paths(s) {
      var e :| e in s && e.path == self.entries[i].path;
      var k :| 0 <= k < |self.entries| && k !in w.consumed && e.path == self.entries[k].path;
      PathIndexAt(self.entries, k);
      PathIndexAt(self.entries, i);
    }
  }

  /** Rename with a different LastModified: the new target path is dropped,
      it is in the result neither as Add nor as Move. */
  lemma {:induction false} SyncDropsMismatch(self: Snapshot, target: Snapshot, now: int, t: Entry, i: nat)
    requires UniquePaths(self.entries) && UniquePaths(target.entries) && i < |self.entries|
    requires t in target.entries && t.path !in Paths(self.entries)
    requires HashCount(self.entries, self.entries[i].hash) == 1 && t.hash == self.entries[i].hash
    requires t.lastModified != self.entries[i].lastModified
    requires NewestAt(target.entries, self.entries[i].path, self.entries[i].lastModified) == self.entries[i].lastModified
    ensures t.path !in Paths(Syncronized(self, target, now).entries)
  {
    var w := Marked(self.entries, target.entries);
    var c := MarkRemoved(w.copies, self.entries, Paths(target.entries));
    var s := Survivors(c, w.consumed);
    forall u | u in target.entries && u.path == t.path ensures u == t {
      var a :| 0 <= a < |target.entries| && target.entries[a] == u;
      var b :| 0 <= b < |target.entries| && target.entries[b] == t;
    }
    MarkedMismatch(self.entries, target.entries, t, i);
    assert Syncronized(self, target, now).entries == s + w.added;
    assert t.path !in Paths(s) by {
      SurvivorPaths(self, target);
      forall e | e in s ensures e.path != t.path {
        var j :| 0 <= j < |self.entries| && j !in w.consumed && e.path == self.entries[j].path;
        assert self.entries[j] in self.entries;
      }
    }
    PathsAppend(s, w.added);
  }

  // ------------------------------------------------------ whole diffs

  lemma {:induction false} NewestAtUnique(base: seq<Entry>, i: nat)
    requires UniquePaths(base) && i < |base|
    ensures NewestAt(base, base[i].path, base[i].lastModified) == base[i].lastModified
  {
  }

  lemma {:induction false} FromTargetPath(e: Entry, ts: seq<Entry>)
    requires FromTarget(e, ts)
    ensures e.path in Paths(ts)
  {
    var t :| t in ts && e == t.(action := e.action, moveFrom := e.moveFrom);
  }

  /** Syncronizing a tree with itself changes nothing: the diff is the base
      itself, so a state trims to the empty diff ("No Changes Detected"). */
  lemma {:induction false} SyncUnchanged(self: Snapshot, now: int, later: int)
    requires UniquePaths(self.entries) && AllNone(self.entries)
    ensures Syncronized(self, self, now).entries == self.entries
    ensures Trim(Syncronized(self, self, now), later).entries == []
  {
    var base := self.entries;
    var w := Marked(base, base);
    MarkedSelf(base);
    var c := MarkRemoved(w.copies, base, Paths(base));
    forall i | 0 <= i < |base| ensures c[i] == base[i] {
      assert base[i] in base;
    }
    SurvivorsNone(c);
    assert c == base;
    TrimState(Syncronized(self, self, now), later);
  }

  /** Marking a state against itself adds nothing, consumes nothing and
      copies every entry unchanged. */
  lemma {:induction false} MarkedSelf(base: seq<Entry>)
    requires UniquePaths(base) && AllNone(base)
    ensures Marked(base, base).added == [] && Marked(base, base).consumed == {}
    ensures |Marked(base, base).copies| == |base|
    ensures forall i | 0 <= i < |base| :: Marked(base, base).copies[i] == base[i]
  {
    var w := Marked(base, base);
    MarkedAdded(base, base);
    MarkedCopies(base, base);
    if w.added != [] {
      assert w.added[0] in w.added;
      assert AddedOk(base, base, w.added[0]);
      FromTargetPath(w.added[0], base);
    }
    assert w.consumed == {};
    forall i | 0 <= i < |base| ensures w.copies[i] == base[i] {
      NewestAtUnique(base, i);
    }
  }

  /** No target path new to the base shares its hash with a base entry:
      Syncronize then detects no rename. */
  predicate NewPathsNewHashes(base: seq<Entry>, target: seq<Entry>) {
    forall t | t in target && t.path !in Paths(base) :: t.hash !in Hashes(base)
  }

  lemma {:induction false} NoRenames(base: seq<Entry>, target: seq<Entry>)
    requires UniquePaths(base) && NewPathsNewHashes(base, target)
    ensures forall e | e in Marked(base, target).added :: e.action == Add
    ensures Marked(base, target).consumed == {}
  {
    var w := Marked(base, target);
    MarkedAdded(base, target);
    forall e | e in w.added ensures e.action == Add {
      assert AddedOk(base, target, e);
      var t :| t in target && e == t.(action := e.action, moveFrom := e.moveFrom);
      if e.hash !in Hashes(base) {
        HashCountZero(base, e.hash);
      }
    }
  }

  /** Without renames the diff is the marked clones, then the appended Adds. */
  lemma {:induction false} DiffShape(self: Snapshot, target: Snapshot, now: int)
    requires UniquePaths(self.entries) && NewPathsNewHashes(self.entries, target.entries)
    ensures Syncronized(self, target, now).entries
            == MarkRemoved(Marked(self.entries, target.entries).copies, self.entries, Paths(target.entries))
               + Marked(self.entries, target.entries).added
  {
    NoRenames(self.entries, target.entries);
    MarkedCopies(self.entries, target.entries);
    SurvivorsNone(MarkRemoved(Marked(self.entries, target.entries).copies, self.entries, Paths(target.entries)));
  }

  /** The marked clones of a state: tagged Remove exactly when the target
      lacks their path, and tagged Add only when it holds it. */
  lemma {:induction false} ClonesTagged(base: seq<Entry>, target: seq<Entry>)
    requires UniquePaths(base) && AllNone(base)
    ensures var c := MarkRemoved(Marked(base, target).copies, base, Paths(target));
            forall k | 0 <= k < |c| ::
              && c[k].path == base[k].path
              && c[k].action != Move
              && (c[k].action == Remove <==> base[k].path !in Paths(target))
              && (c[k].action == Add ==> base[k].path in Paths(target))
  {
    MarkedCopies(base, target);
    forall k | 0 <= k < |base| && base[k].path !in Paths(target)
      ensures NewestAt(target, base[k].path, base[k].lastModified) == base[k].lastModified
    {
      NewestAtAbsent(target, base[k].path, base[k].lastModified);
    }
    assert forall k | 0 <= k < |base| :: base[k] in base;
  }

  /** The appended entries sit at target paths. */
  lemma {:induction false} AddedInTarget(base: seq<Entry>, target: seq<Entry>)
    requires UniquePaths(base)
    ensures forall e | e in Marked(base, target).added :: e.path in Paths(target)
  {
    MarkedAdded(base, target);
    forall e | e in Marked(base, target).added ensures e.path in Paths(target) {
      assert AddedOk(base, target, e);
      var t :| t in target && e == t.(action := e.action, moveFrom := e.moveFrom);
    }
  }

  /** The diff removes exactly the base paths the target lacks. */
  lemma {:induction false} DiffRemoves(self: Snapshot, target: Snapshot, now: int)
    requires UniquePaths(self.entries) && AllNone(self.entries)
    requires NewPathsNewHashes(self.entries, target.entries)
    ensures RemovedPaths(Syncronized(self, target, now).entries) == Paths(self.entries) - Paths(target.entries)
  {
    DiffRemovesLost(self, target, now);
    DiffRemovesOnlyLost(self, target, now);
  }

  lemma {:induction false} DiffRemovesLost(self: Snapshot, target: Snapshot, now: int)
    requires UniquePaths(self.entries) && AllNone(self.entries)
    requires NewPathsNewHashes(self.entries, target.entries)
    ensures Paths(self.entries) - Paths(target.entries) <= RemovedPaths(Syncronized(self, target, now).entries)
  {
    var base := self.entries;
    var live := Paths(target.entries);
    var w := Marked(base, target.entries);
    var c := MarkRemoved(w.copies, base, live);
    var d := Syncronized(self, target, now).entries;
    DiffShape(self, target, now);
    NoRenames(base, target.entries);
    ClonesTagged(base, target.entries);
    forall p | p in Paths(base) - live ensures p in RemovedPaths(d) {
      var b :| b in base && b.path == p;
      var k :| 0 <= k < |base| && base[k] == b;
      assert c[k] in d;
    }
  }

  lemma {:induction false} DiffRemovesOnlyLost(self: Snapshot, target: Snapshot, now: int)
    requires UniquePaths(self.entries) && AllNone(self.entries)
    requires NewPathsNewHashes(self.entries, target.entries)
    ensures RemovedPaths(Syncronized(self, target, now).entries) <= Paths(self.entries) - Paths(target.entries)
  {
    var base := self.entries;
    var live := Paths(target.entries);
    var w := Marked(base, target.entries);
    var c := MarkRemoved(w.copies, base, live);
    var d := Syncronized(self, target, now).entries;
    DiffShape(self, target, now);
    NoRenames(base, target.entries);
    ClonesTagged(base, target.entries);
    forall e | e in d && e.action == Remove ensures e.path in Paths(base) - live {
      if e !in w.added {
        var k :| 0 <= k < |c| && c[k] == e;
        assert base[k] in base;
      }
    }
  }

  /** The diff adds every target path new to the base. */
  lemma {:induction false} DiffAddsNew(self: Snapshot, target: Snapshot, now: int)
    requires UniquePaths(self.entries) && AllNone(self.entries)
    requires NewPathsNewHashes(self.entries, target.entries)
    ensures Paths(target.entries) - Paths(self.entries) <= AddPaths(Syncronized(self, target, now).entries)
  {
    var base := self.entries;
    var w := Marked(base, target.entries);
    var d := Syncronized(self, target, now).entries;
    DiffShape(self, target, now);
    forall p | p in Paths(target.entries) - Paths(base) ensures p in AddPaths(d) {
      var t :| t in target.entries && t.path == p;
      if t.hash !in Hashes(base) {
        HashCountZero(base, t.hash);
      }
      MarkedAddsNew(base, target.entries, t);
      assert t.(action := Add) in w.added;
      assert t.(action := Add) in d;
    }
  }

  /** The diff adds only target paths, and holds no Move. */
  lemma {:induction false} DiffAddsWithin(self: Snapshot, target: Snapshot, now: int)
    requires UniquePaths(self.entries) && AllNone(self.entries)
    requires NewPathsNewHashes(self.entries, target.entries)
    ensures var d := Syncronized(self, target, now).entries;
            && AddPaths(d) <= Paths(target.entries)
            && (forall e | e in d :: e.action != Move)
  {
    var base := self.entries;
    var live := Paths(target.entries);
    var w := Marked(base, target.entries);
    var c := MarkRemoved(w.copies, base, live);
    var d := Syncronized(self, target, now).entries;
    DiffShape(self, target, now);
    NoRenames(base, target.entries);
    ClonesTagged(base, target.entries);
    AddedInTarget(base, target.entries);
    forall e | e in c ensures e.action != Move && (e.action == Add ==> e.path in live) {
      var k :| 0 <= k < |c| && c[k] == e;
      assert base[k] in base;
    }
    assert forall e | e in d :: e in c || e in w.added;
  }

  /** Patching with any diff that removes exactly the paths a tree lacks,
      adds every path it gains, adds nothing outside it and moves nothing
      reproduces the tree's path set. */
  lemma {:induction false} PatchByDiff(self: Snapshot, diff: Snapshot, live: set<string>)
    requires UniquePaths(self.entries)
    requires RemovedPaths(diff.entries) == Paths(self.entries) - live
    requires live - Paths(self.entries) <= AddPaths(diff.entries) <= live
    requires forall e | e in diff.entries :: e.action != Move
    ensures CanPatch(self, diff)
    ensures Paths(Patched(self, diff).entries) == live
  {
    CarriedUnique(self.entries, RemovedPaths(diff.entries));
    var moved := MovePaths(diff.entries);
    var sources := MoveSources(diff.entries);
    assert moved == {};
    assert sources == {};
    PatchPaths(self, diff);
    var kept := Paths(self.entries) - RemovedPaths(diff.entries);
    var added := AddPaths(diff.entries);
    var r := Paths(Patched(self, diff).entries);
    assert kept == Paths(self.entries) * live;
    assert r <= kept + added + moved;
    assert (kept + added) - sources <= r;
    assert kept + added == live;
  }

  /** The round trip: patching the base with the diff Syncronize computes
      reproduces the live tree's path set, provided no new path shares a
      hash with a base entry (otherwise a rename may be detected, or the
      new path dropped). */
  lemma {:induction false} SyncPatchRoundTrip(self: Snapshot, target: Snapshot, now: int)
    requires UniquePaths(self.entries) && AllNone(self.entries)
    requires NewPathsNewHashes(self.entries, target.entries)
    ensures CanPatch(self, Syncronized(self, target, now))
    ensures Paths(Patched(self, Syncronized(self, target, now)).entries) == Paths(target.entries)
  {
    DiffRemoves(self, target, now);
    DiffAddsNew(self, target, now);
    DiffAddsWithin(self, target, now);
    PatchByDiff(self, Syncronized(self, target, now), Paths(target.entries));
  }

  /** Marking against an empty base: both dictionaries are empty, so every
      target entry is appended tagged Add, in order. */
  lemma {:induction false} MarkAllFresh(byPath: map<string, nat>, byHash: map<string, nat>, ts: seq<Entry>)
    requires byPath == map[] && byHash == map[]
    ensures var w := MarkAll(Work([], {}, []), byPath, byHash, ts);
            && w.copies == [] && w.consumed == {} && |w.added| == |ts|
            && forall k | 0 <= k < |ts| :: w.added[k] == ts[k].(action := Add)
  {
    if ts != [] {
      MarkAllFresh(byPath, byHash, Init(ts));
      InitLast(ts);
    }
  }

  /** The diff from an empty snapshot (the first backup) is the target's
      entries, in order, each tagged Add. */
  lemma {:induction false} SyncFromEmpty(target: Snapshot, now: int, start: int)
    ensures var d := Syncronized(Snapshot(start, []), target, now).entries;
            && |d| == |target.entries|
            && forall k | 0 <= k < |d| :: d[k] == target.entries[k].(action := Add)
  {
    assert PathIndex([]) == map[];
    assert UniqueHashIndex([]) == map[] by {
      assert Hashes([]) == {};
    }
    MarkAllFresh(map[], map[], target.entries);
    assert MarkRemoved([], [], Paths(target.entries)) == [];
  }

  /** The trimmed first diff: the live entries, each tagged Add. */
  lemma {:induction false} FirstDiff(live: Snapshot, synced: int, now: int, trimmed: int)
    requires UniquePaths(live.entries)
    ensures var d := Trim(Syncronized(Snapshot(now, []), live, synced), trimmed).entries;
            && UniquePaths(d) && Paths(d) == Paths(live.entries)
            && forall e | e in d :: e.action == Add
  {
    var es := Syncronized(Snapshot(now, []), live, synced).entries;
    FirstDiffEntries(live, synced, now);
    TaggedAllTagged(es);
  }

  lemma {:induction false} FirstDiffEntries(live: Snapshot, synced: int, now: int)
    requires UniquePaths(live.entries)
    ensures var es := Syncronized(Snapshot(now, []), live, synced).entries;
            && UniquePaths(es) && Paths(es) == Paths(live.entries)
            && forall e | e in es :: e.action == Add
  {
    var es := Syncronized(Snapshot(now, []), live, synced).entries;
    SyncFromEmpty(live, synced, now);
    forall e | e in es ensures e.action == Add {
      var k :| 0 <= k < |es| && es[k] == e;
    }
    forall p | p in Paths(live.entries) ensures p in Paths(es) {
      var t :| t in live.entries && t.path == p;
      var k :| 0 <= k < |live.entries| && live.entries[k] == t;
      assert es[k] in es;
    }
    forall p | p in Paths(es) ensures p in Paths(live.entries) {
      var e :| e in es && e.path == p;
      var k :| 0 <= k < |es| && es[k] == e;
      assert live.entries[k] in live.entries;
    }
    forall i, j | 0 <= i < j < |es| ensures es[i].path != es[j].path {
      assert es[i].path == live.entries[i].path && es[j].path == live.entries[j].path;
    }
  }

  /** A diff of Adds at distinct paths, patched onto itself, keeps its paths. */
  lemma {:induction false} AddsOntoThemselves(d: Snapshot)
    requires UniquePaths(d.entries) && forall e | e in d.entries :: e.action == Add
    ensures CanPatch(d, d) && Paths(Patched(d, d).entries) == Paths(d.entries)
  {
    var es := d.entries;
    assert RemovedPaths(es) == {};
    CarriedUnique(es, {});
    assert AddPaths(es) == Paths(es);
    assert MovePaths(es) == {} && MoveSources(es) == {};
    PatchPaths(d, d);
    assert (Paths(es) - RemovedPaths(es)) + AddPaths(es) + MovePaths(es) == Paths(es);
    assert ((Paths(es) - RemovedPaths(es)) + AddPaths(es)) - MoveSources(es) == Paths(es);
  }

  /** The first loop on the copy example: the clone of "a" is consumed by
      the copy "b", appended as a Move. */
  lemma {:induction false} CopyMarked()
    ensures var a := Entry(None, "h", 5, 1, Wrappers.None, "a");
            var b := Entry(None, "h", 5, 1, Wrappers.None, "b");
            Marked([a], [a, b]) == Work([a], {0}, [b.(action := Move, moveFrom := Wrappers.Some("a"))])
  {
    var a := Entry(None, "h", 5, 1, Wrappers.None, "a");
    var b := Entry(None, "h", 5, 1, Wrappers.None, "b");
    var byPath := map["a" := 0];
    var byHash := map["h" := 0];
    assert PathIndex([a]) == byPath;
    assert HashCount([a], "h") == 1 by {
      assert Init([a]) == [];
    }
    assert Hashes([a]) == {"h"};
    assert UniqueHashIndex([a]) == byHash;
    var w0 := Work([a], {}, []);
    assert MarkAll(w0, byPath, byHash, [a]) == w0 by {
      assert Init([a]) == [];
    }
    assert Init([a, b]) == [a];
  }

  /** The diff on the copy example is the single Move. */
  lemma {:induction false} CopyDiff()
    ensures var a := Entry(None, "h", 5, 1, Wrappers.None, "a");
            var b := Entry(None, "h", 5, 1, Wrappers.None, "b");
            Syncronized(Snapshot(0, [a]), Snapshot(0, [a, b]), 1)
            == Snapshot(1, [b.(action := Move, moveFrom := Wrappers.Some("a"))])
  {
    var a := Entry(None, "h", 5, 1, Wrappers.None, "a");
    var b := Entry(None, "h", 5, 1, Wrappers.None, "b");
    CopyMarked();
    assert Paths([a, b]) == {"a", "b"};
    assert MarkRemoved([a], [a], {"a", "b"}) == [a];
    assert Survivors([a], {0}) == [] by {
      assert Init([a]) == [];
    }
  }

  /** A file moved into a new folder keeps its hash and time, so the diff
      is the single Move from its old path. */
  lemma {:induction false} RenameDiff()
    ensures var a := Entry(None, "h", 5, 1, Wrappers.None, "a.txt");
            var b := Entry(None, "h", 5, 1, Wrappers.None, "new/a.txt");
            Syncronized(Snapshot(0, [a]), Snapshot(0, [b]), 1)
            == Snapshot(1, [b.(action := Move, moveFrom := Wrappers.Some("a.txt"))])
  {
    var a := Entry(None, "h", 5, 1, Wrappers.None, "a.txt");
    var b := Entry(None, "h", 5, 1, Wrappers.None, "new/a.txt");
    var byPath := map["a.txt" := 0];
    var byHash := map["h" := 0];
    assert PathIndex([a]) == byPath;
    assert HashCount([a], "h") == 1 by {
      assert Init([a]) == [];
    }
    assert Hashes([a]) == {"h"};
    assert UniqueHashIndex([a]) == byHash;
    var w0 := Work([a], {}, []);
    assert Init([b]) == [] && MarkAll(w0, byPath, byHash, []) == w0;
    assert "a.txt" != "new/a.txt";
    assert Marked([a], [b]) == Work([a], {0}, [b.(action := Move, moveFrom := Wrappers.Some("a.txt"))]);
    assert Paths([b]) == {"new/a.txt"};
    assert MarkRemoved([a], [a], {"new/a.txt"}) == [a.(action := Remove)] by {
      assert Init([a]) == [];
    }
    assert Survivors([a.(action := Remove)], {0}) == [] by {
      assert Init([a.(action := Remove)]) == [];
    }
  }

  /** A copy whose modification time is preserved is taken for a rename:
      the base holds "a", the live tree holds "a" and an identical copy "b".
      The diff moves "a" to "b", and patching the base with it leaves only
      "b", losing "a", which the live tree still holds. */
  lemma {:induction false} CopyTakenForRename()
    ensures var a := Entry(None, "h", 5, 1, Wrappers.None, "a");
            var b := Entry(None, "h", 5, 1, Wrappers.None, "b");
            var diff := Syncronized(Snapshot(0, [a]), Snapshot(0, [a, b]), 1);
            CanPatch(Snapshot(0, [a]), diff) && Patched(Snapshot(0, [a]), diff).entries == [b]
  {
    var a := Entry(None, "h", 5, 1, Wrappers.None, "a");
    var m := Entry(Move, "h", 5, 1, Wrappers.Some("a"), "b");
    CopyDiff();
    assert Syncronized(Snapshot(0, [a]), Snapshot(0, [a, Entry(None, "h", 5, 1, Wrappers.None, "b")]), 1) == Snapshot(1, [m]);
    RenameOnce();
  }
}
