/**
  What `Snapshot.Trim` and `Snapshot.Patch` promise, proved about the
  functions `Trim` and `Patched` that the methods are shown equal to.
*/
module PatchProperties {
  import opened Snapshots
  import Wrappers

  // ---------------------------------------------------------------- Trim

  /** Tagging is decided entry by entry: the tagged entries of a
      concatenation are those of each part, in the same order. */
  lemma {:induction false} TaggedAppend(a: seq<Entry>, b: seq<Entry>)
    ensures Tagged(a + b) == Tagged(a) + Tagged(b)
  {
    if b != [] {
      assert Init(a + b) == a + Init(b);
      assert Last(a + b) == Last(b);
      TaggedAppend(a, Init(b));
      var x := if Last(b).action != None then [Last(b)] else [];
      calc {
        Tagged(a + b);
        Tagged(a + Init(b)) + x;
        Tagged(a) + Tagged(Init(b)) + x;
        Tagged(a) + (Tagged(Init(b)) + x);
        Tagged(a) + Tagged(b);
      }
    } else {
      assert a + b == a;
    }
  }

  /** A list whose entries are all tagged is kept whole, in order. */
  lemma {:induction false} TaggedAllTagged(es: seq<Entry>)
    requires forall e | e in es :: e.action != None
    ensures Tagged(es) == es
  {
    if es != [] {
      assert forall e | e in Init(es) :: e in es;
      TaggedAllTagged(Init(es));
      assert Last(es) in es;
      InitLast(es);
    }
  }

  /** Trim is idempotent: trimming a trimmed snapshot keeps all of it. */
  lemma {:induction false} TrimIdempotent(s: Snapshot, now: int, later: int)
    ensures Trim(Trim(s, now), later).entries == Trim(s, now).entries
  {
    TaggedAllTagged(Trim(s, now).entries);
  }

  /** A state snapshot (all entries untagged) trims to nothing. */
  lemma {:induction false} TrimState(s: Snapshot, now: int)
    requires AllNone(s.entries)
    ensures Trim(s, now).entries == []
  {
    TaggedNone(s.entries);
  }

  lemma {:induction false} TaggedNone(es: seq<Entry>)
    requires AllNone(es)
    ensures Tagged(es) == []
  {
    if es != [] {
      assert Last(es) in es;
      TaggedNone(Init(es));
    }
  }

  // --------------------------------------------------------------- Patch

  /** The paths the diff tags Add. */
  function AddPaths(es: seq<Entry>): set<string> {
    set e | e in es && e.action == Add :: e.path
  }

  /** The destinations of the diff's Move entries. */
  function MovePaths(es: seq<Entry>): set<string> {
    set e | e in es && e.action == Move :: e.path
  }

  lemma {:induction false} PathsSnoc(es: seq<Entry>, e: Entry)
    ensures Paths(es + [e]) == Paths(es) + {e.path}
  {
    PathsAppend(es, [e]);
  }

  lemma {:induction false} PathsUpdate(es: seq<Entry>, i: nat, e: Entry)
    requires i < |es|
    ensures Paths(es[i := e]) <= Paths(es) + {e.path}
    ensures e.path == es[i].path ==> Paths(es[i := e]) == Paths(es)
  {
    var r := es[i := e];
    forall x | x in r ensures x.path in Paths(es) + {e.path} {
      var j :| 0 <= j < |r| && r[j] == x;
      if j != i { assert es[j] in es; }
    }
    if e.path == es[i].path {
      forall x | x in es ensures x.path in Paths(r) {
        var j :| 0 <= j < |es| && es[j] == x;
        if j != i { assert r[j] in r; } else { assert r[i] in r; }
      }
    }
  }

  /** The Add pass keeps every path and adds exactly the Add-tagged paths. */
  lemma {:induction false} ApplyAddsPaths(res: seq<Entry>, existing: map<string, nat>, es: seq<Entry>)
    requires IndexInto(existing, res) && existing.Keys <= Paths(res)
    ensures Paths(ApplyAdds(res, existing, es)) == Paths(res) + AddPaths(es)
  {
    if es != [] {
      ApplyAddsPaths(res, existing, Init(es));
      var prev := ApplyAdds(res, existing, Init(es));
      var e := Last(es);
      InitLast(es);
      assert AddPaths(es) == AddPaths(Init(es)) + (if e.action == Add then {e.path} else {});
      if e.action == Add {
        if e.path in existing {
          var i := existing[e.path];
          assert i < |prev|;
          if prev[i].lastModified < e.lastModified {
            PathsUpdate(prev, i, prev[i].(lastModified := e.lastModified));
          }
        } else {
          PathsSnoc(prev, e.(action := None));
        }
      }
    }
  }

  /** The Move pass only adds Move destinations to the paths. */
  lemma {:induction false} ApplyMovesPaths(res: seq<Entry>, existing: map<string, nat>, es: seq<Entry>)
    requires IndexInto(existing, res)
    requires forall e | e in es && e.action == Move :: e.moveFrom.Some?
    ensures Paths(ApplyMoves(res, existing, es)) <= Paths(res) + MovePaths(es)
  {
    if es != [] {
      assert forall e | e in Init(es) :: e in es;
      ApplyMovesPaths(res, existing, Init(es));
      var prev := ApplyMoves(res, existing, Init(es));
      var e := Last(es);
      InitLast(es);
      assert e in es;
      assert MovePaths(es) == MovePaths(Init(es)) + (if e.action == Move then {e.path} else {});
      if e.action == Move {
        if e.moveFrom.value in existing {
          var i := existing[e.moveFrom.value];
          PathsUpdate(prev, i, prev[i].(lastModified := e.lastModified, path := e.path));
        } else {
          PathsSnoc(prev, e.(action := None));
        }
      }
    }
  }

  /** A diff without Move entries leaves the Move pass nothing to do. */
  lemma {:induction false} ApplyMovesNone(res: seq<Entry>, existing: map<string, nat>, es: seq<Entry>)
    requires IndexInto(existing, res)
    requires forall e | e in es :: e.action != Move
    ensures ApplyMoves(res, existing, es) == res
  {
    if es != [] {
      assert forall e | e in Init(es) :: e in es;
      assert Last(es) in es;
      ApplyMovesNone(res, existing, Init(es));
    }
  }

  /** The sources of the diff's Move entries. */
  function MoveSources(es: seq<Entry>): set<string> {
    set e | e in es && e.action == Move && e.moveFrom.Some? :: e.moveFrom.value
  }

  /** The Add pass changes no path already in the list. */
  lemma {:induction false} ApplyAddsKeepsPaths(res: seq<Entry>, existing: map<string, nat>, es: seq<Entry>)
    requires IndexInto(existing, res)
    ensures forall j | 0 <= j < |res| :: ApplyAdds(res, existing, es)[j].path == res[j].path
  {
    if es != [] {
      ApplyAddsKeepsPaths(res, existing, Init(es));
    }
  }

  /** The Move pass touches only the carried positions whose path is the
      source of some Move; every other position is left as it was. */
  lemma {:induction false} ApplyMovesUntouched(res: seq<Entry>, existing: map<string, nat>, es: seq<Entry>, carried: seq<Entry>)
    requires IndexInto(existing, carried) && |carried| <= |res|
    requires forall q | q in existing :: carried[existing[q]].path == q
    requires forall e | e in es && e.action == Move :: e.moveFrom.Some?
    ensures forall j | 0 <= j < |res| && (j >= |carried| || carried[j].path !in MoveSources(es)) ::
      ApplyMoves(res, existing, es)[j] == res[j]
  {
    if es != [] {
      assert forall e | e in Init(es) :: e in es;
      assert MoveSources(Init(es)) <= MoveSources(es);
      ApplyMovesUntouched(res, existing, Init(es), carried);
      assert Last(es) in es;
    }
  }

  /** Patch's result paths: the base's paths minus the removed ones, plus
      the diff's Add paths, plus at most the diff's Move destinations; and
      all of the former that no Move renames away are there. In particular
      a base path tagged Remove, not re-added and not a Move destination is
      gone. */
  lemma {:induction false} PatchPaths(self: Snapshot, diff: Snapshot)
    requires CanPatch(self, diff)
    ensures Paths(Patched(self, diff).entries)
            <= (Paths(self.entries) - RemovedPaths(diff.entries)) + AddPaths(diff.entries) + MovePaths(diff.entries)
    ensures ((Paths(self.entries) - RemovedPaths(diff.entries)) + AddPaths(diff.entries)) - MoveSources(diff.entries)
            <= Paths(Patched(self, diff).entries)
  {
    var carried := Carried(self.entries, RemovedPaths(diff.entries));
    var existing := PathIndex(carried);
    var added := ApplyAdds(carried, existing, diff.entries);
    var r := Patched(self, diff).entries;
    ApplyAddsPaths(carried, existing, diff.entries);
    ApplyMovesPaths(added, existing, diff.entries);
    ApplyAddsKeepsPaths(carried, existing, diff.entries);
    ApplyMovesUntouched(added, existing, diff.entries, carried);
    forall x | x in ((Paths(self.entries) - RemovedPaths(diff.entries)) + AddPaths(diff.entries)) - MoveSources(diff.entries)
      ensures x in Paths(r)
    {
      var y :| y in added && y.path == x;
      var j :| 0 <= j < |added| && added[j] == y;
      assert r[j] in r;
    }
  }

  // ------------------------------------------------ untagged entries are inert

  lemma {:induction false} RemovedPathsTagged(es: seq<Entry>)
    ensures RemovedPaths(Tagged(es)) == RemovedPaths(es)
  {
  }

  lemma {:induction false} ApplyAddsTagged(res: seq<Entry>, existing: map<string, nat>, es: seq<Entry>)
    requires IndexInto(existing, res)
    ensures ApplyAdds(res, existing, Tagged(es)) == ApplyAdds(res, existing, es)
  {
    if es != [] {
      var t := Tagged(Init(es));
      ApplyAddsTagged(res, existing, Init(es));
      if Last(es).action != None {
        assert Tagged(es) == t + [Last(es)];
        assert Init(t + [Last(es)]) == t;
      } else {
        assert Tagged(es) == t;
      }
    }
  }

  lemma {:induction false} ApplyMovesTagged(res: seq<Entry>, existing: map<string, nat>, es: seq<Entry>)
    requires IndexInto(existing, res)
    requires forall e | e in es && e.action == Move :: e.moveFrom.Some?
    ensures ApplyMoves(res, existing, Tagged(es)) == ApplyMoves(res, existing, es)
  {
    if es != [] {
      var t := Tagged(Init(es));
      assert forall e | e in Init(es) :: e in es;
      assert Last(es) in es;
      ApplyMovesTagged(res, existing, Init(es));
      if Last(es).action != None {
        assert Tagged(es) == t + [Last(es)];
        MovesSnoc(res, existing, t, Last(es));
      } else {
        assert Tagged(es) == t;
      }
    }
  }

  lemma {:induction false} MovesSnoc(res: seq<Entry>, existing: map<string, nat>, es: seq<Entry>, e: Entry)
    requires IndexInto(existing, res)
    requires forall x | x in es + [e] && x.action == Move :: x.moveFrom.Some?
    ensures forall x | x in es && x.action == Move :: x.moveFrom.Some?
    ensures ApplyMoves(res, existing, es + [e]) == MoveStep(ApplyMoves(res, existing, es), existing, e)
  {
    assert forall x | x in es :: x in es + [e];
    assert Init(es + [e]) == es && Last(es + [e]) == e;
  }

  /** None-tagged diff entries have no effect: patching with a diff or with
      its trimmed form gives the same entries. */
  lemma {:induction false} PatchTrimmed(self: Snapshot, diff: Snapshot, now: int)
    requires CanPatch(self, diff)
    ensures CanPatch(self, Trim(diff, now))
    ensures Patched(self, Trim(diff, now)).entries == Patched(self, diff).entries
  {
    RemovedPathsTagged(diff.entries);
    var carried := Carried(self.entries, RemovedPaths(diff.entries));
    var existing := PathIndex(carried);
    ApplyAddsTagged(carried, existing, diff.entries);
    ApplyMovesTagged(ApplyAdds(carried, existing, diff.entries), existing, diff.entries);
  }

  // ------------------------------------------------------- the Add pass

  /** The newest LastModified among `lm` and the Add entries at path `p`:
      what Patch raises an existing entry's LastModified to. */
  function NewestAdd(es: seq<Entry>, p: string, lm: int): (r: int)
    ensures r >= lm
    ensures forall e | e in es && e.action == Add && e.path == p :: r >= e.lastModified
    ensures r == lm || exists e | e in es :: e.action == Add && e.path == p && r == e.lastModified
  {
    if es == [] then lm
    else
      var m := NewestAdd(Init(es), p, lm);
      InitLast(es);
      if Last(es).action == Add && Last(es).path == p && m < Last(es).lastModified then Last(es).lastModified
      else m
  }

  /** The Add pass changes only LastModified at the positions it finds, to
      the newest Add at that position's path. */
  lemma {:induction false} ApplyAddsAt(res: seq<Entry>, existing: map<string, nat>, es: seq<Entry>, j: nat)
    requires IndexInto(existing, res) && j < |res|
    requires res[j].path in existing && existing[res[j].path] == j
    requires forall q | q in existing :: res[existing[q]].path == q
    ensures ApplyAdds(res, existing, es)[j]
            == res[j].(lastModified := NewestAdd(es, res[j].path, res[j].lastModified))
  {
    if es != [] {
      ApplyAddsAt(res, existing, Init(es), j);
      ApplyAddsKeepsPaths(res, existing, Init(es));
    }
  }

  /** An Add whose path the dictionary lacks is appended, untagged, past
      the positions the pass started with. */
  lemma {:induction false} ApplyAddsAppends(res: seq<Entry>, existing: map<string, nat>, es: seq<Entry>, a: Entry)
    requires IndexInto(existing, res)
    requires a in es && a.action == Add && a.path !in existing
    ensures a.(action := None) in ApplyAdds(res, existing, es)[|res|..]
  {
    var prev := ApplyAdds(res, existing, Init(es));
    var r := ApplyAdds(res, existing, es);
    InitLast(es);
    if a in Init(es) {
      ApplyAddsAppends(res, existing, Init(es), a);
      assert r[|res|..] == prev[|res|..] || r[|res|..] == prev[|res|..] + [Last(es).(action := None)];
    } else {
      assert a == Last(es);
      assert r[|res|..] == prev[|res|..] + [a.(action := None)];
    }
  }

  // ------------------------------------------------------ the Move pass

  /** The one Move from a found path renames that position and takes its
      LastModified. */
  lemma {:induction false} ApplyMovesAt(res: seq<Entry>, existing: map<string, nat>, es: seq<Entry>,
                                        carried: seq<Entry>, j: nat, m: Entry)
    requires IndexInto(existing, carried) && |carried| <= |res| && j < |carried|
    requires forall q | q in existing :: carried[existing[q]].path == q
    requires forall e | e in es && e.action == Move :: e.moveFrom.Some?
    requires m in es && m.action == Move && m.moveFrom == Wrappers.Some(carried[j].path)
    requires carried[j].path in existing && existing[carried[j].path] == j
    requires forall e | e in es && e.action == Move && e.moveFrom == m.moveFrom :: e == m
    ensures ApplyMoves(res, existing, es)[j] == res[j].(lastModified := m.lastModified, path := m.path)
  {
    var prev := ApplyMoves(res, existing, Init(es));
    InitLast(es);
    assert forall e | e in Init(es) :: e in es;
    if m in Init(es) {
      ApplyMovesAt(res, existing, Init(es), carried, j, m);
      assert Last(es) in es;
    } else {
      assert m == Last(es);
      ApplyMovesUntouched(res, existing, Init(es), carried);
    }
  }

  /** A Move whose source the dictionary lacks is appended, untagged. */
  lemma {:induction false} ApplyMovesAppends(res: seq<Entry>, existing: map<string, nat>, es: seq<Entry>, m: Entry)
    requires IndexInto(existing, res)
    requires forall e | e in es && e.action == Move :: e.moveFrom.Some?
    requires m in es && m.action == Move && m.moveFrom.value !in existing
    ensures m.(action := None) in ApplyMoves(res, existing, es)[|res|..]
  {
    var prev := ApplyMoves(res, existing, Init(es));
    var r := ApplyMoves(res, existing, es);
    InitLast(es);
    assert forall e | e in Init(es) :: e in es;
    assert Last(es) in es;
    if m in Init(es) {
      ApplyMovesAppends(res, existing, Init(es), m);
      assert r[|res|..] == prev[|res|..] || r[|res|..] == prev[|res|..] + [Last(es).(action := None)];
    } else {
      assert m == Last(es);
      assert r[|res|..] == prev[|res|..] + [m.(action := None)];
    }
  }

  // ---------------------------------------------------- Patch, entry by entry

  /** A base entry kept by Patch (not removed, not renamed) is untagged and
      its LastModified is raised to the newest Add at its path, never lowered. */
  lemma {:induction false} PatchKeeps(self: Snapshot, diff: Snapshot, b: Entry)
    requires CanPatch(self, diff)
    requires b in self.entries && b.path !in RemovedPaths(diff.entries) && b.path !in MoveSources(diff.entries)
    ensures b.(action := None, lastModified := NewestAdd(diff.entries, b.path, b.lastModified))
            in Patched(self, diff).entries
  {
    var carried := Carried(self.entries, RemovedPaths(diff.entries));
    var existing := PathIndex(carried);
    var added := ApplyAdds(carried, existing, diff.entries);
    var j :| 0 <= j < |carried| && carried[j] == b.(action := None);
    PathIndexAt(carried, j);
    ApplyAddsAt(carried, existing, diff.entries, j);
    ApplyMovesUntouched(added, existing, diff.entries, carried);
    assert Patched(self, diff).entries[j] == added[j];
  }

  /** An Add for a path the base lacks (or removes) is appended as an untagged copy. */
  lemma {:induction false} PatchAppendsAdd(self: Snapshot, diff: Snapshot, a: Entry)
    requires CanPatch(self, diff)
    requires a in diff.entries && a.action == Add
    requires a.path !in Paths(self.entries) - RemovedPaths(diff.entries)
    ensures a.(action := None) in Patched(self, diff).entries
  {
    var carried := Carried(self.entries, RemovedPaths(diff.entries));
    var existing := PathIndex(carried);
    var added := ApplyAdds(carried, existing, diff.entries);
    var r := Patched(self, diff).entries;
    ApplyAddsAppends(carried, existing, diff.entries, a);
    var k :| |carried| <= k < |added| && added[k] == a.(action := None);
    ApplyMovesUntouched(added, existing, diff.entries, carried);
    assert r[k] in r;
  }

  /** The one Move from a kept base path renames that entry in place: same
      hash and length, the Move's path and LastModified, untagged. */
  lemma {:induction false} PatchRenames(self: Snapshot, diff: Snapshot, b: Entry, m: Entry)
    requires CanPatch(self, diff)
    requires b in self.entries && b.path !in RemovedPaths(diff.entries)
    requires m in diff.entries && m.action == Move && m.moveFrom == Wrappers.Some(b.path)
    requires forall e | e in diff.entries && e.action == Move && e.moveFrom == m.moveFrom :: e == m
    ensures b.(action := None, lastModified := m.lastModified, path := m.path) in Patched(self, diff).entries
  {
    var carried := Carried(self.entries, RemovedPaths(diff.entries));
    var existing := PathIndex(carried);
    var added := ApplyAdds(carried, existing, diff.entries);
    var r := Patched(self, diff).entries;
    var j :| 0 <= j < |carried| && carried[j] == b.(action := None);
    PathIndexAt(carried, j);
    ApplyAddsAt(carried, existing, diff.entries, j);
    ApplyMovesAt(added, existing, diff.entries, carried, j, m);
    assert r[j] in r;
  }

  /** A Move whose source the base lacks (or removes) appends its destination as a new entry. */
  lemma {:induction false} PatchAppendsMove(self: Snapshot, diff: Snapshot, m: Entry)
    requires CanPatch(self, diff)
    requires m in diff.entries && m.action == Move
    requires m.moveFrom.Some? && m.moveFrom.value !in Paths(self.entries) - RemovedPaths(diff.entries)
    ensures m.(action := None) in Patched(self, diff).entries
  {
    var carried := Carried(self.entries, RemovedPaths(diff.entries));
    var existing := PathIndex(carried);
    var added := ApplyAdds(carried, existing, diff.entries);
    var r := Patched(self, diff).entries;
    ApplyMovesAppends(added, existing, diff.entries, m);
    var k :| |added| <= k < |r| && r[k] == m.(action := None);
    assert r[k] in r;
  }

  /** `existing` is never updated, so applying the same rename twice finds
      the old path missing the second time and appends the destination
      again: the state then holds one path twice. */
  lemma {:induction false} PatchTwiceDuplicates()
    ensures var base := Snapshot(0, [Entry(None, "h", 5, 1, Wrappers.None, "a")]);
            var diff := Snapshot(1, [Entry(Move, "h", 5, 1, Wrappers.Some("a"), "b")]);
            var once := Snapshot(1, [Entry(None, "h", 5, 1, Wrappers.None, "b")]);
            && CanPatch(base, diff) && Patched(base, diff) == once && UniquePaths(once.entries)
            && CanPatch(once, diff) && !UniquePaths(Patched(once, diff).entries)
  {
    RenameOnce();
    RenameAgain();
  }

  lemma {:induction false} RenameOnce()
    ensures var diff := Snapshot(1, [Entry(Move, "h", 5, 1, Wrappers.Some("a"), "b")]);
            var base := Snapshot(0, [Entry(None, "h", 5, 1, Wrappers.None, "a")]);
            && CanPatch(base, diff) && Patched(base, diff) == Snapshot(1, [Entry(None, "h", 5, 1, Wrappers.None, "b")])
            && UniquePaths([Entry(None, "h", 5, 1, Wrappers.None, "b")])
  {
    PatchedRename(Entry(None, "h", 5, 1, Wrappers.None, "a"), Entry(Move, "h", 5, 1, Wrappers.Some("a"), "b"), 0, 1);
  }

  lemma {:induction false} RenameAgain()
    ensures var diff := Snapshot(1, [Entry(Move, "h", 5, 1, Wrappers.Some("a"), "b")]);
            var once := Snapshot(1, [Entry(None, "h", 5, 1, Wrappers.None, "b")]);
            CanPatch(once, diff) && !UniquePaths(Patched(once, diff).entries)
  {
    var m := Entry(Move, "h", 5, 1, Wrappers.Some("a"), "b");
    var b := Entry(None, "h", 5, 1, Wrappers.None, "b");
    PatchedAppend(b, m, 1, 1);
    var twice := Patched(Snapshot(1, [b]), Snapshot(1, [m])).entries;
    assert twice[0].path == twice[1].path;
  }

  /** Patching a one-entry snapshot with a Move of that entry renames it. */
  lemma {:induction false} PatchedRename(a: Entry, m: Entry, d0: int, d1: int)
    requires m.action == Move && m.moveFrom == Wrappers.Some(a.path)
    ensures CanPatch(Snapshot(d0, [a]), Snapshot(d1, [m]))
    ensures Patched(Snapshot(d0, [a]), Snapshot(d1, [m])).entries == [a.(action := None, lastModified := m.lastModified, path := m.path)]
  {
    OneIndex(a.(action := None));
    PatchedOne(a, m, d0, d1);
    MoveOnto(a, m);
  }

  lemma {:induction false} MoveOnto(a: Entry, m: Entry)
    requires m.action == Move && m.moveFrom == Wrappers.Some(a.path)
    ensures MoveStep([a.(action := None)], map[a.path := 0], m) == [a.(action := None, lastModified := m.lastModified, path := m.path)]
  {
  }

  /** A Move whose source the snapshot lacks is appended. */
  lemma {:induction false} PatchedAppend(a: Entry, m: Entry, d0: int, d1: int)
    requires m.action == Move && m.moveFrom.Some? && m.moveFrom.value != a.path
    ensures CanPatch(Snapshot(d0, [a]), Snapshot(d1, [m]))
    ensures Patched(Snapshot(d0, [a]), Snapshot(d1, [m])).entries == [a.(action := None), m.(action := None)]
  {
    OneIndex(a.(action := None));
    PatchedOne(a, m, d0, d1);
    MoveBeside(a, m);
  }

  lemma {:induction false} MoveBeside(a: Entry, m: Entry)
    requires m.action == Move && m.moveFrom.Some? && m.moveFrom.value != a.path
    ensures MoveStep([a.(action := None)], map[a.path := 0], m) == [a.(action := None), m.(action := None)]
  {
  }

  /** Patching a one-entry snapshot with one Move is that Move's step. */
  lemma {:induction false} PatchedOne(a: Entry, m: Entry, d0: int, d1: int)
    requires m.action == Move && m.moveFrom.Some? && IndexInto(map[a.path := 0], [a.(action := None)])
    ensures CanPatch(Snapshot(d0, [a]), Snapshot(d1, [m]))
    ensures Patched(Snapshot(d0, [a]), Snapshot(d1, [m])).entries == MoveStep([a.(action := None)], map[a.path := 0], m)
  {
    var carried := [a.(action := None)];
    assert Carried([a], RemovedPaths([m])) == carried by {
      assert RemovedPaths([m]) == {};
      CarriedOne(a, {});
    }
    PathIndexOne(a.(action := None));
    assert forall e | e in [m] && e.action == Move :: e.moveFrom.Some?;
    PatchedVia(Snapshot(d0, [a]), Snapshot(d1, [m]), carried, map[a.path := 0]);
    OneMove(carried, map[a.path := 0], m);
  }

  /** Patched, once the carried list and its index are known. */
  lemma {:induction false} PatchedVia(self: Snapshot, diff: Snapshot, carried: seq<Entry>, existing: map<string, nat>)
    requires Carried(self.entries, RemovedPaths(diff.entries)) == carried
    requires UniquePaths(carried) && PathIndex(carried) == existing
    requires forall e | e in diff.entries && e.action == Move :: e.moveFrom.Some?
    ensures CanPatch(self, diff)
    ensures Patched(self, diff).entries == ApplyMoves(ApplyAdds(carried, existing, diff.entries), existing, diff.entries)
  {
  }

  lemma {:induction false} OneIndex(a: Entry)
    ensures IndexInto(map[a.path := 0], [a])
  {
  }

  lemma {:induction false} CarriedOne(a: Entry, removed: set<string>)
    ensures Carried([a], removed) == if a.path in removed then [] else [a.(action := None)]
  {
    assert Init([a]) == [] && Last([a]) == a;
  }

  lemma {:induction false} PathIndexOne(a: Entry)
    ensures UniquePaths([a]) && PathIndex([a]) == map[a.path := 0]
  {
    assert Init([a]) == [] && Last([a]) == a;
  }

  /** Patch's loops on a diff holding one Move: the Add loop skips it. */
  lemma {:induction false} OneMove(res: seq<Entry>, existing: map<string, nat>, m: Entry)
    requires IndexInto(existing, res) && m.action == Move && m.moveFrom.Some?
    ensures ApplyAdds(res, existing, [m]) == res
    ensures ApplyMoves(res, existing, [m]) == MoveStep(res, existing, m)
  {
    assert Init([m]) == [] && Last([m]) == m;
  }
}
