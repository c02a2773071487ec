/*
  SyncApp: the incremental directory sync. A backup builds the current
  state from the snapshot chain, diffs it against the live file listing,
  appends the trimmed diff to the chain and writes a tar holding the chain
  file and every added file under "snapshot/". A restore applies the
  latest snapshot's removals and moves to the directory, then overlays the
  extracted "snapshot/" tree onto it.

  The file system is a map from archive-relative paths to contents; the
  tar is described by the entries it receives.
*/
module SyncApps {
  import opened Wrappers
  import Str = StringExtensions
  import opened Snapshots
  import opened SnapshotCollections
  import PP = PatchProperties
  import SP = SyncProperties

  const SnapshotFileName: string := "snapshot.gz"
  const SnapshotFolder: string := "snapshot"

  // ------------------------------------------------------ options

  /** The options the app reads. */
  datatype Options = Options(
    archivePath: Option<string>,
    snapshot: Option<string>,
    backup: bool,
    restore: bool,
    inputFile: Option<string>,
    outputFile: Option<string>)

  /** `ValidateOptions`: the message of the exception, `None` when the
      options are accepted. */
  function ValidateOptions(o: Options): (r: Option<string>)
    ensures r.None? <==> !Str.IsEmpty(o.archivePath) && (o.backup || o.restore) && (o.backup ==> !Str.IsEmpty(o.snapshot))
    ensures Str.IsEmpty(o.archivePath) ==> r == Some("Missing Parameter: --path")
    ensures !Str.IsEmpty(o.archivePath) && o.backup && Str.IsEmpty(o.snapshot) ==> r == Some("Missing Parameter: --snapshot")
    ensures !Str.IsEmpty(o.archivePath) && !o.backup && !o.restore ==>
              r == Some("Missing Parameter: At least one of -c or -x must be specified.")
  {
    if Str.IsEmpty(o.archivePath) then Some("Missing Parameter: --path")
    else if o.backup then
      if Str.IsEmpty(o.snapshot) then Some("Missing Parameter: --snapshot") else Option.None
    else if o.restore then Option.None
    else Some("Missing Parameter: At least one of -c or -x must be specified.")
  }

  datatype Mode = BackupMode | RestoreMode | Idle

  /** `Run`: backup takes precedence over restore. */
  function RunMode(o: Options): (m: Mode)
    ensures m == BackupMode <==> o.backup
    ensures m == RestoreMode <==> !o.backup && o.restore
  {
    if o.backup then BackupMode else if o.restore then RestoreMode else Idle
  }

  /** Accepted options always run something, and a backup always has its
      chain file. */
  lemma {:induction false} AcceptedRuns(o: Options)
    requires ValidateOptions(o).None?
    ensures RunMode(o) != Idle
    ensures RunMode(o) == BackupMode ==> o.snapshot.Some? && o.snapshot.value != ""
  {
  }

  // ------------------------------------------------------ effects

  /** What the app does outside its own state, in order: saving the chain
      file, writing a tar entry (its header name and the file it reads),
      logging a failure about a path. */
  datatype SyncEffect =
    | SaveChain(chain: seq<Snapshot>)
    | WriteEntry(name: string, source: string)
    | LogError(path: string)

  lemma {:induction false} AppendAssoc(a: seq<SyncEffect>, b: seq<SyncEffect>, c: seq<SyncEffect>)
    ensures (a + b) + c == a + (b + c)
  {
  }

  // ------------------------------------------------------ backup

  /** How a backup ends. */
  datatype BackupOutcome =
    | Archived
    | NoChangesDetected   // the trimmed diff is empty
    | PatchFailed         // building the chain throws inside `Patch`
    | DuplicatePaths      // `Syncronize` throws on a duplicate base path

  /** What a backup decides before it writes anything. */
  datatype BackupPlan = Fails(outcome: BackupOutcome) | Diffed(diff: Snapshot)

  /** The diff a backup appends: the chain built up to the clock, diffed
      against the live listing and trimmed. */
  function PlanBackup(chain: seq<Snapshot>, live: seq<Entry>, now: int): (p: BackupPlan)
    ensures p.Fails? ==> p.outcome != Archived
    ensures p.Diffed? ==> p.diff.entries != [] && p.diff.date == now
    ensures p.Diffed? ==> forall e | e in p.diff.entries :: e.action != EntryAction.None
  {
    match Build(chain, now, now)
    case None => Fails(PatchFailed)
    case Some(base) =>
      if !UniquePaths(base.entries) then Fails(DuplicatePaths)
      else
        var d := Trim(Syncronized(base, Snapshot(now, live), now), now);
        if |d.entries| == 0 then Fails(NoChangesDetected) else Diffed(d)
  }

  /** The tar entries for one diff entry: an added file goes under
      "snapshot/" unless it is the output file itself; one that cannot be
      opened is logged instead. `output` is the output file's path inside
      the archive, `None` when the tar goes to standard output. */
  function PayloadOf(e: Entry, readable: set<string>, output: Option<string>): (r: seq<SyncEffect>)
    ensures |r| <= 1
  {
    if e.action != Add || output == Some(e.path) then []
    else if e.path in readable then [WriteEntry(SnapshotFolder + "/" + e.path, e.path)]
    else [LogError(e.path)]
  }

  /** The tar entries for the files a diff adds, in diff order. */
  function Payload(es: seq<Entry>, readable: set<string>, output: Option<string>): (r: seq<SyncEffect>)
    ensures |r| <= |es|
    ensures (forall e | e in es :: e.action != Add) ==> r == []
  {
    if es == [] then []
    else
      assert forall e | e in Init(es) :: e in es;
      assert Last(es) in es;
      Payload(Init(es), readable, output) + PayloadOf(Last(es), readable, output)
  }

  lemma {:induction false} PayloadSnoc(es: seq<Entry>, e: Entry, readable: set<string>, output: Option<string>)
    ensures Payload(es + [e], readable, output) == Payload(es, readable, output) + PayloadOf(e, readable, output)
  {
    assert Init(es + [e]) == es;
  }

  lemma {:induction false} PayloadNext(e0: seq<SyncEffect>, es: seq<Entry>, i: int, readable: set<string>, output: Option<string>)
    requires 0 <= i < |es|
    ensures e0 + Payload(es[..i + 1], readable, output) == (e0 + Payload(es[..i], readable, output)) + PayloadOf(es[i], readable, output)
  {
    assert es[..i + 1] == es[..i] + [es[i]];
    PayloadSnoc(es[..i], es[i], readable, output);
    AppendAssoc(e0, Payload(es[..i], readable, output), PayloadOf(es[i], readable, output));
  }

  /** Every tar entry of the payload is an added, readable file other than
      the output, stored under "snapshot/"; every failure names an added
      file that could not be read. */
  lemma {:induction false} PayloadSound(es: seq<Entry>, readable: set<string>, output: Option<string>)
    ensures forall x | x in Payload(es, readable, output) ::
              exists e | e in es :: e.action == Add && output != Some(e.path) &&
                (if e.path in readable then x == WriteEntry(SnapshotFolder + "/" + e.path, e.path) else x == LogError(e.path))
  {
    if es != [] {
      PayloadSound(Init(es), readable, output);
      assert es == Init(es) + [Last(es)];
      forall x | x in Payload(es, readable, output)
        ensures exists e | e in es :: e.action == Add && output != Some(e.path) &&
                  (if e.path in readable then x == WriteEntry(SnapshotFolder + "/" + e.path, e.path) else x == LogError(e.path))
      {
        if x in Payload(Init(es), readable, output) {
          var e :| e in Init(es) && e.action == Add && output != Some(e.path) &&
                   (if e.path in readable then x == WriteEntry(SnapshotFolder + "/" + e.path, e.path) else x == LogError(e.path));
          assert e in es;
        } else {
          assert Last(es) in es;
        }
      }
    }
  }

  /** Every added file other than the output is either written to the
      tar or logged. */
  lemma {:induction false} PayloadComplete(es: seq<Entry>, readable: set<string>, output: Option<string>, e: Entry)
    requires e in es && e.action == Add && output != Some(e.path)
    ensures e.path in readable ==> WriteEntry(SnapshotFolder + "/" + e.path, e.path) in Payload(es, readable, output)
    ensures e.path !in readable ==> LogError(e.path) in Payload(es, readable, output)
  {
    assert es == Init(es) + [Last(es)];
    if e != Last(es) {
      assert e in Init(es);
      PayloadComplete(Init(es), readable, output, e);
    }
  }

  // ------------------------------------------------------ restore

  /** The archive directory: its files, the directories that exist in it
      (the root, "", always does), and the failures logged so far. */
  datatype Tree = Tree(files: map<string, seq<bv8>>, dirs: set<string>, log: seq<SyncEffect>)

  /** The directory part of a path: what precedes its last '/', "" (the
      root) when it has none. */
  function DirOf(p: string): (d: string)
    ensures d == "" || (|d| < |p| && p[..|d|] == d && p[|d|] == '/')
    ensures forall i | |d| < i < |p| :: p[i] != '/'
  {
    if p == [] then ""
    else if Last(p) == '/' then Init(p)
    else
      var d := DirOf(Init(p));
      assert forall i | 0 <= i < |Init(p)| :: Init(p)[i] == p[i];
      d
  }

  /** The directory a file at `p` would go into exists. */
  predicate HasDir(dirs: set<string>, p: string) {
    DirOf(p) == "" || DirOf(p) in dirs
  }

  /** The directories `Directory.CreateDirectory` creates for a file at
      `p`: every prefix that ends before a '/'. */
  function Ancestors(p: string): set<string> {
    set i | 0 <= i < |p| && p[i] == '/' :: p[..i]
  }

  /** Once its ancestors are created, a file's directory exists. */
  lemma {:induction false} AncestorsHaveDir(dirs: set<string>, p: string)
    ensures HasDir(dirs + Ancestors(p), p)
  {
    var d := DirOf(p);
    if d != "" {
      assert p[|d|] == '/' && p[..|d|] == d;
      assert d in Ancestors(p);
    }
  }

  /** `OrderByDescending(s => s.Date).FirstOrDefault()`: the first of the
      latest snapshots, as the sort is stable. */
  function Latest(ss: seq<Snapshot>): (r: Option<Snapshot>)
    ensures r.None? <==> ss == []
    ensures r.Some? ==> exists i | 0 <= i < |ss| :: ss[i] == r.value && forall j | 0 <= j < i :: ss[j].date < r.value.date
    ensures r.Some? ==> forall s | s in ss :: s.date <= r.value.date
  {
    if ss == [] then Option.None
    else
      var rest := Latest(ss[1..]);
      assert forall s | s in ss :: s == ss[0] || s in ss[1..];
      if rest.None? || ss[0].date >= rest.value.date then Some(ss[0])
      else
        var i :| 0 <= i < |ss[1..]| && ss[1..][i] == rest.value && forall j | 0 <= j < i :: ss[1..][j].date < rest.value.date;
        assert ss[i + 1] == rest.value;
        Some(rest.value)
  }

  /** The entries the restore works through: those of the latest snapshot. */
  function LatestEntries(ss: seq<Snapshot>): seq<Entry> {
    match Latest(ss)
    case None => []
    case Some(s) => s.entries
  }

  /** One iteration of the removal loop. */
  function RemoveStep(t: Tree, e: Entry): Tree {
    if e.action == Remove && e.path in t.files then t.(files := t.files - {e.path}) else t
  }

  /** The removal loop: it only deletes, and it keeps every file no
      entry tags Remove. */
  function RemovePass(t: Tree, es: seq<Entry>): (r: Tree)
    ensures r.log == t.log
    ensures forall p | p in r.files :: p in t.files && r.files[p] == t.files[p]
    ensures forall p | p in t.files && p !in RemovedPaths(es) :: p in r.files
  {
    if es == [] then t
    else
      assert forall e | e in Init(es) :: e in es;
      assert Last(es) in es;
      RemoveStep(RemovePass(t, Init(es)), Last(es))
  }

  lemma {:induction false} RemovePassNext(t: Tree, es: seq<Entry>, i: int)
    requires 0 <= i < |es|
    ensures RemovePass(t, es[..i + 1]) == RemoveStep(RemovePass(t, es[..i]), es[i])
  {
    assert Init(es[..i + 1]) == es[..i] && Last(es[..i + 1]) == es[i];
  }

  /** One iteration of the move loop: a null source makes `Path.Combine`
      throw, and `File.Move` throws when the target exists or when the
      target's directory does not (it creates none); each is logged and the
      file stays where it was. */
  function MoveFile(t: Tree, e: Entry): Tree {
    if e.action != Move then t
    else match e.moveFrom
      case None => t.(log := t.log + [LogError(e.path)])
      case Some(from) =>
        if from !in t.files then t
        else if e.path in t.files || !HasDir(t.dirs, e.path) then t.(log := t.log + [LogError(e.path)])
        else t.(files := (t.files - {from})[e.path := t.files[from]])
  }

  /** The move loop: the log only grows, the directories stay, a file
      appears only at a move's target, and a file no move names stays. */
  function MovePass(t: Tree, es: seq<Entry>): (r: Tree)
    ensures t.log <= r.log && r.dirs == t.dirs
    ensures forall p | p in r.files :: p in t.files || p in MovedPaths(es)
    ensures forall p | p in t.files && p !in MovedPaths(es) :: p in r.files
  {
    if es == [] then t
    else
      assert forall e | e in Init(es) :: e in es;
      assert Last(es) in es;
      MoveFile(MovePass(t, Init(es)), Last(es))
  }

  lemma {:induction false} MovePassNext(t: Tree, es: seq<Entry>, i: int)
    requires 0 <= i < |es|
    ensures MovePass(t, es[..i + 1]) == MoveFile(MovePass(t, es[..i]), es[i])
  {
    assert Init(es[..i + 1]) == es[..i] && Last(es[..i + 1]) == es[i];
  }

  /** Where an extracted file goes: what follows "snapshot/" in its name.
      The name is cut at that length whatever it holds; a name too short
      to cut makes the move throw. */
  function Target(name: string): (r: Option<string>)
    ensures r.Some? <==> |name| > |SnapshotFolder| + 1
    ensures r.Some? ==> |r.value| > 0
  {
    if |name| > |SnapshotFolder| + 1 then Some(name[|SnapshotFolder| + 1..]) else Option.None
  }

  /** A file the backup stored under "snapshot/" goes back to its path. */
  lemma {:induction false} TargetOfStored(path: string)
    requires path != ""
    ensures Target(SnapshotFolder + "/" + path) == Some(path)
  {
    assert (SnapshotFolder + "/" + path)[|SnapshotFolder| + 1..] == path;
  }

  /** One iteration of the overlay loop: the target's directories are
      created and the extracted file replaces the target. */
  function OverlayStep(t: Tree, extracted: map<string, seq<bv8>>, name: string): Tree
    requires name in extracted
  {
    match Target(name)
    case None => t.(log := t.log + [LogError(name)])
    case Some(p) => t.(files := t.files[p := extracted[name]], dirs := t.dirs + Ancestors(p))
  }

  /** The overlay loop: it never deletes a file or a directory, and the
      log only grows. */
  function Overlay(t: Tree, extracted: map<string, seq<bv8>>, order: seq<string>): (r: Tree)
    requires forall n | n in order :: n in extracted
    ensures t.log <= r.log
    ensures t.files.Keys <= r.files.Keys && t.dirs <= r.dirs
  {
    if order == [] then t
    else
      assert forall n | n in Init(order) :: n in order;
      OverlayStep(Overlay(t, extracted, Init(order)), extracted, Last(order))
  }

  /** The whole restore: removals, then moves, then the overlay. A file
      that no entry removes or moves is still there afterwards. */
  function Restored(t: Tree, entries: seq<Entry>, extracted: map<string, seq<bv8>>, order: seq<string>): (r: Tree)
    requires forall n | n in order :: n in extracted
    ensures t.log <= r.log
    ensures forall p | p in t.files && p !in RemovedPaths(entries) && p !in MovedPaths(entries) :: p in r.files
  {
    Overlay(MovePass(RemovePass(t, entries), entries), extracted, order)
  }

  /** The removal pass deletes exactly the files the snapshot tags Remove. */
  lemma {:induction false} RemovePassFiles(t: Tree, es: seq<Entry>)
    ensures RemovePass(t, es).log == t.log
    ensures RemovePass(t, es).files == map p | p in t.files && p !in RemovedPaths(es) :: t.files[p]
  {
    if es != [] {
      RemovePassFiles(t, Init(es));
      assert es == Init(es) + [Last(es)];
      assert RemovedPaths(es) == RemovedPaths(Init(es)) + (if Last(es).action == Remove then {Last(es).path} else {});
    }
  }

  /** The paths a move entry names. */
  function MovedPaths(es: seq<Entry>): set<string> {
    (set e | e in es && e.action == Move :: e.path) +
    (set e | e in es && e.action == Move && e.moveFrom.Some? :: e.moveFrom.value)
  }

  /** The move pass leaves every file no move names as it was. */
  lemma {:induction false} MovePassElsewhere(t: Tree, es: seq<Entry>, p: string)
    requires p !in MovedPaths(es)
    ensures p in MovePass(t, es).files <==> p in t.files
    ensures p in t.files ==> MovePass(t, es).files[p] == t.files[p]
  {
    if es != [] {
      assert es == Init(es) + [Last(es)];
      assert MovedPaths(Init(es)) <= MovedPaths(es);
      MovePassElsewhere(t, Init(es), p);
    }
  }

  /** A move whose source exists, whose target does not and whose target
      directory does carries the content across. */
  lemma {:induction false} MoveCarries(t: Tree, e: Entry)
    requires e.action == Move && e.moveFrom.Some? && e.moveFrom.value in t.files && e.path !in t.files
    requires HasDir(t.dirs, e.path)
    ensures MoveFile(t, e).files[e.path] == t.files[e.moveFrom.value]
    ensures e.moveFrom.value !in MoveFile(t, e).files
    ensures MoveFile(t, e).log == t.log
  {
  }

  /** A move into a directory that does not exist fails: it is logged and
      the file stays at its old path. */
  lemma {:induction false} MoveNeedsDir(t: Tree, e: Entry)
    requires e.action == Move && e.moveFrom.Some? && e.moveFrom.value in t.files
    requires !HasDir(t.dirs, e.path)
    ensures MoveFile(t, e).files == t.files
    ensures MoveFile(t, e).log == t.log + [LogError(e.path)]
  {
  }

  /** Names of files the backup stores under "snapshot/". */
  predicate Stored(name: string) {
    |name| > |SnapshotFolder| + 1 && name[..|SnapshotFolder| + 1] == SnapshotFolder + "/"
  }

  lemma {:induction false} StoredTargetsDiffer(a: string, b: string)
    requires Stored(a) && Stored(b) && a != b
    ensures Target(a) != Target(b)
  {
    var k := |SnapshotFolder| + 1;
    assert a == a[..k] + a[k..] && b == b[..k] + b[k..];
  }

  /** Placing stored names logs nothing. */
  lemma {:induction false} OverlayKeepsLog(t: Tree, extracted: map<string, seq<bv8>>, order: seq<string>)
    requires forall n | n in order :: n in extracted && Stored(n)
    ensures Overlay(t, extracted, order).log == t.log
  {
    if order != [] {
      assert forall n | n in Init(order) :: n in order;
      assert Last(order) in order;
      OverlayKeepsLog(t, extracted, Init(order));
    }
  }

  /** A file no listed name targets is left as it was. */
  lemma {:induction false} OverlayElsewhere(t: Tree, extracted: map<string, seq<bv8>>, order: seq<string>, p: string)
    requires forall n | n in order :: n in extracted
    requires p in t.files && forall n | n in order :: Target(n) != Some(p)
    ensures p in Overlay(t, extracted, order).files && Overlay(t, extracted, order).files[p] == t.files[p]
  {
    if order != [] {
      assert forall n | n in Init(order) :: n in order;
      assert Last(order) in order;
      OverlayElsewhere(t, extracted, Init(order), p);
    }
  }

  /** A listed stored name lands at its target; no later name of a
      duplicate-free listing overwrites it. */
  lemma {:induction false} OverlayAt(t: Tree, extracted: map<string, seq<bv8>>, order: seq<string>, n: string)
    requires forall m | m in order :: m in extracted && Stored(m)
    requires forall i, j | 0 <= i < j < |order| :: order[i] != order[j]
    requires n in order
    ensures Target(n).Some? && Target(n).value in Overlay(t, extracted, order).files
    ensures Overlay(t, extracted, order).files[Target(n).value] == extracted[n]
  {
    var init := Init(order);
    var last := Last(order);
    assert order == init + [last];
    assert last in order;
    var q := Target(last).value;
    assert Overlay(t, extracted, order).files == Overlay(t, extracted, init).files[q := extracted[last]];
    if n != last {
      var i :| 0 <= i < |order| && order[i] == n;
      assert i < |init| && init[i] == n;
      assert forall m | m in init :: m in order;
      assert forall i, j | 0 <= i < j < |init| :: init[i] == order[i] && init[j] == order[j];
      OverlayAt(t, extracted, init, n);
      StoredTargetsDiffer(n, last);
    }
  }

  /** The overlay puts each stored file at its path, overwriting, and
      leaves every other file as it was. */
  lemma {:induction false} OverlayPlaces(t: Tree, extracted: map<string, seq<bv8>>, order: seq<string>)
    requires forall n | n in order :: n in extracted && Stored(n)
    requires forall i, j | 0 <= i < j < |order| :: order[i] != order[j]
    ensures Overlay(t, extracted, order).log == t.log
    ensures forall n | n in order :: Target(n).Some? && Target(n).value in Overlay(t, extracted, order).files &&
              Overlay(t, extracted, order).files[Target(n).value] == extracted[n]
    ensures forall p | p in t.files && (forall n | n in order :: Target(n) != Some(p)) ::
              p in Overlay(t, extracted, order).files && Overlay(t, extracted, order).files[p] == t.files[p]
  {
    OverlayKeepsLog(t, extracted, order);
    forall n | n in order
      ensures Target(n).Some? && Target(n).value in Overlay(t, extracted, order).files &&
              Overlay(t, extracted, order).files[Target(n).value] == extracted[n]
    {
      OverlayAt(t, extracted, order, n);
    }
    forall p | p in t.files && (forall n | n in order :: Target(n) != Some(p))
      ensures p in Overlay(t, extracted, order).files && Overlay(t, extracted, order).files[p] == t.files[p]
    {
      OverlayElsewhere(t, extracted, order, p);
    }
  }

  /** The restore round trip: a file stored as "snapshot/<path>" ends up
      at `path` with the stored content, whatever the removals and moves
      did. */
  lemma {:induction false} RestorePlaces(t: Tree, entries: seq<Entry>, extracted: map<string, seq<bv8>>, order: seq<string>, path: string)
    requires forall n | n in order :: n in extracted && Stored(n)
    requires forall i, j | 0 <= i < j < |order| :: order[i] != order[j]
    requires SnapshotFolder + "/" + path in order && path != ""
    ensures path in Restored(t, entries, extracted, order).files
    ensures Restored(t, entries, extracted, order).files[path] == extracted[SnapshotFolder + "/" + path]
  {
    OverlayPlaces(MovePass(RemovePass(t, entries), entries), extracted, order);
    TargetOfStored(path);
  }

  /** The rename the diff records for a file moved into a new folder. */
  lemma {:induction false} RenameTrimmed()
    ensures var a := Entry(EntryAction.None, "h", 5, 1, Option.None, "a.txt");
            var b := Entry(EntryAction.None, "h", 5, 1, Option.None, "new/a.txt");
            Trim(Syncronized(Snapshot(0, [a]), Snapshot(0, [b]), 1), 1).entries
            == [Entry(Move, "h", 5, 1, Some("a.txt"), "new/a.txt")]
  {
    SP.RenameDiff();
    PP.TaggedAllTagged([Entry(Move, "h", 5, 1, Some("a.txt"), "new/a.txt")]);
  }

  /** A move into a folder the tree lacks is logged and leaves the files. */
  lemma {:induction false} MoveIntoMissingFolder(content: seq<bv8>, readable: set<string>, output: Option<string>)
    ensures var m := Entry(Move, "h", 5, 1, Some("a.txt"), "new/a.txt");
            var t := Tree(map["a.txt" := content], {}, []);
            && Payload([m], readable, output) == []
            && Restored(t, [m], map[], []) == t.(log := [LogError("new/a.txt")])
  {
    var m := Entry(Move, "h", 5, 1, Some("a.txt"), "new/a.txt");
    var t := Tree(map["a.txt" := content], {}, []);
    assert Init([m]) == [] && Last([m]) == m;
    assert RemovePass(t, [m]) == t;
    assert !HasDir({}, "new/a.txt") by {
      var p := "new/a.txt";
      assert p[3] == '/';
    }
    assert MovePass(t, [m]) == MoveFile(t, m);
  }

  /** A rename into a folder the restored directory lacks: the base holds
      "a.txt", the live tree "new/a.txt" with the same hash and time. The
      diff is the single Move, whose payload is empty; restoring it onto a
      directory holding "a.txt" and no "new" folder logs the failed move
      and leaves "a.txt" where it was, and nothing puts "new/a.txt" back. */
  lemma {:induction false} RenameIntoMissingFolder(content: seq<bv8>, readable: set<string>, output: Option<string>)
    ensures var a := Entry(EntryAction.None, "h", 5, 1, Option.None, "a.txt");
            var b := Entry(EntryAction.None, "h", 5, 1, Option.None, "new/a.txt");
            var d := Trim(Syncronized(Snapshot(0, [a]), Snapshot(0, [b]), 1), 1).entries;
            var t := Tree(map["a.txt" := content], {}, []);
            && Payload(d, readable, output) == []
            && Restored(t, d, map[], []) == t.(log := [LogError("new/a.txt")])
  {
    RenameTrimmed();
    MoveIntoMissingFolder(content, readable, output);
  }

  // ------------------------------------------------------ backup, then restore

  /** The files a tar holds once extracted, by entry name: an entry written
      from an existing file carries that file's content, and a later entry
      of the same name replaces an earlier one (`SetKeepOldFiles(false)`). */
  function Extracted(tar: seq<SyncEffect>, files: map<string, seq<bv8>>): (x: map<string, seq<bv8>>)
    ensures forall n | n in x :: exists s | WriteEntry(n, s) in tar :: s in files && x[n] == files[s]
    ensures forall n, s | WriteEntry(n, s) in tar && s in files :: n in x
  {
    if tar == [] then map[]
    else
      var x := Extracted(Init(tar), files);
      assert tar == Init(tar) + [Last(tar)];
      match Last(tar)
      case WriteEntry(n, s) => if s in files then x[n := files[s]] else x
      case _ => x
  }

  /** The files under "snapshot/" in the archive a backup writes: the
      payload of its diff read from the archive directory, nothing when the
      backup fails. */
  function BackupArchive(chain: seq<Snapshot>, live: seq<Entry>, files: map<string, seq<bv8>>,
                         readable: set<string>, output: Option<string>, now: int): map<string, seq<bv8>>
  {
    match PlanBackup(chain, live, now)
    case Diffed(d) => Extracted(Payload(d.entries, readable, output), files)
    case Fails(_) => map[]
  }

  /** `order` lists the extracted files, each once. */
  predicate Listing(order: seq<string>, x: map<string, seq<bv8>>) {
    && (forall n | n in order :: n in x)
    && (forall n | n in x :: n in order)
    && (forall i, j | 0 <= i < j < |order| :: order[i] != order[j])
  }

  lemma {:induction false} StoredOf(p: string)
    requires p != ""
    ensures Stored(SnapshotFolder + "/" + p)
  {
    var n := SnapshotFolder + "/" + p;
    assert n[..|SnapshotFolder| + 1] == SnapshotFolder + "/";
  }

  /** A payload written from readable files extracts each added path
      under "snapshot/", with that path's content, and nothing else. */
  lemma {:induction false} PayloadExtracts(es: seq<Entry>, files: map<string, seq<bv8>>, readable: set<string>, output: Option<string>)
    requires PP.AddPaths(es) <= readable && PP.AddPaths(es) <= files.Keys
    requires output.None? || output.value !in PP.AddPaths(es)
    ensures var x := Extracted(Payload(es, readable, output), files);
            && (forall p | p in PP.AddPaths(es) :: SnapshotFolder + "/" + p in x && x[SnapshotFolder + "/" + p] == files[p])
            && (forall n | n in x :: exists p | p in PP.AddPaths(es) :: n == SnapshotFolder + "/" + p)
  {
    var tar := Payload(es, readable, output);
    var x := Extracted(tar, files);
    PayloadSound(es, readable, output);
    forall n | n in x
      ensures exists p | p in PP.AddPaths(es) :: n == SnapshotFolder + "/" + p
      ensures exists p | p in PP.AddPaths(es) :: n == SnapshotFolder + "/" + p && x[n] == files[p]
    {
      var s :| WriteEntry(n, s) in tar && s in files && x[n] == files[s];
      var e :| e in es && e.action == Add && output != Some(e.path) &&
               (if e.path in readable then WriteEntry(n, s) == WriteEntry(SnapshotFolder + "/" + e.path, e.path) else WriteEntry(n, s) == LogError(e.path));
      assert e.path in PP.AddPaths(es);
    }
    forall p | p in PP.AddPaths(es)
      ensures SnapshotFolder + "/" + p in x && x[SnapshotFolder + "/" + p] == files[p]
    {
      var e :| e in es && e.action == Add && e.path == p;
      PayloadComplete(es, readable, output, e);
      var n := SnapshotFolder + "/" + p;
      assert n in x;
      var q :| q in PP.AddPaths(es) && n == SnapshotFolder + "/" + q && x[n] == files[q];
      assert p == n[|SnapshotFolder| + 1..] == q;
    }
  }

  /** The overlay creates a file only at the target of a listed name. */
  lemma {:induction false} OverlayOnly(t: Tree, extracted: map<string, seq<bv8>>, order: seq<string>)
    requires forall n | n in order :: n in extracted
    ensures forall p | p in Overlay(t, extracted, order).files :: p in t.files || exists n | n in order :: Target(n) == Some(p)
  {
    if order != [] {
      var init := Init(order);
      assert order == init + [Last(order)];
      assert forall n | n in init :: n in order;
      OverlayOnly(t, extracted, init);
    }
  }

  /** Without Move entries the rename pass changes no file. */
  lemma {:induction false} NoMovesKeep(t: Tree, es: seq<Entry>)
    requires forall e | e in es :: e.action != Move
    ensures MovePass(t, es).files == t.files
  {
    var r := MovePass(t, es);
    assert MovedPaths(es) == {};
    forall p ensures (p in r.files <==> p in t.files) && (p in t.files ==> r.files[p] == t.files[p]) {
      MovePassElsewhere(t, es, p);
    }
  }

  /** The overlay of a payload that holds the paths `adds`, each under
      "snapshot/" with its content in `files`, turns a tree that already
      agrees with `files` outside `adds` into `files`. */
  lemma {:induction false} OverlayGives(u: Tree, adds: set<string>, files: map<string, seq<bv8>>,
                                        x: map<string, seq<bv8>>, order: seq<string>)
    requires "" !in adds && adds <= files.Keys
    requires Listing(order, x)
    requires forall p | p in adds :: SnapshotFolder + "/" + p in x && x[SnapshotFolder + "/" + p] == files[p]
    requires forall n | n in x :: exists p | p in adds :: n == SnapshotFolder + "/" + p
    requires u.files.Keys <= files.Keys
    requires forall p | p in files && p !in adds :: p in u.files && u.files[p] == files[p]
    ensures Overlay(u, x, order).files == files
  {
    forall n | n in order ensures n in x && Stored(n) {
      var p :| p in adds && n == SnapshotFolder + "/" + p;
      StoredOf(p);
    }
    var r := Overlay(u, x, order);
    forall p | p in r.files ensures p in files {
      OverlayGivesOnly(u, adds, x, order, p);
    }
    forall p | p in files ensures p in r.files && r.files[p] == files[p] {
      if p in adds {
        TargetOfStored(p);
        OverlayAt(u, x, order, SnapshotFolder + "/" + p);
      } else {
        forall n | n in order ensures Target(n) != Some(p) {
          var q :| q in adds && n == SnapshotFolder + "/" + q;
          TargetOfStored(q);
        }
        OverlayElsewhere(u, x, order, p);
      }
    }
  }

  /** A file after the overlay of such a payload was already there or is
      one of `adds`. */
  lemma {:induction false} OverlayGivesOnly(u: Tree, adds: set<string>, x: map<string, seq<bv8>>, order: seq<string>, p: string)
    requires forall n | n in order :: n in x
    requires forall n | n in x :: exists q | q in adds :: n == SnapshotFolder + "/" + q
    requires "" !in adds
    requires p in Overlay(u, x, order).files
    ensures p in u.files || p in adds
  {
    OverlayOnly(u, x, order);
    if p !in u.files {
      var n :| n in order && Target(n) == Some(p);
      var q :| q in adds && n == SnapshotFolder + "/" + q;
      TargetOfStored(q);
    }
  }

  /** Restoring a diff that moves nothing gives back the tree `files` when
      the diff removes the paths `files` lacks, adds every path it gains,
      and adds (so re-sends) every path whose content changed. */
  lemma {:induction false} RestoreByDiff(t: Tree, es: seq<Entry>, files: map<string, seq<bv8>>,
                                         readable: set<string>, output: Option<string>, order: seq<string>)
    requires forall e | e in es :: e.action != Move
    requires t.files.Keys - files.Keys <= RemovedPaths(es) && RemovedPaths(es) !! files.Keys
    requires files.Keys - t.files.Keys <= PP.AddPaths(es) <= files.Keys
    requires forall p | p in t.files && p in files && p !in PP.AddPaths(es) :: t.files[p] == files[p]
    requires PP.AddPaths(es) <= readable && (output.None? || output.value !in PP.AddPaths(es))
    requires "" !in PP.AddPaths(es)
    requires Listing(order, Extracted(Payload(es, readable, output), files))
    ensures Restored(t, es, Extracted(Payload(es, readable, output), files), order).files == files
  {
    var x := Extracted(Payload(es, readable, output), files);
    PayloadExtracts(es, files, readable, output);
    var t1 := RemovePass(t, es);
    RemovePassFiles(t, es);
    NoMovesKeep(t1, es);
    var u := MovePass(t1, es);
    OverlayGives(u, PP.AddPaths(es), files, x, order);
  }

  /** The latest snapshot of a chain to which a later one is appended is
      that one. */
  lemma {:induction false} LatestAppended(ss: seq<Snapshot>, d: Snapshot)
    requires forall s | s in ss :: s.date < d.date
    ensures LatestEntries(ss + [d]) == d.entries
  {
    var all := ss + [d];
    var r := Latest(all).value;
    assert d in all;
    var i :| 0 <= i < |all| && all[i] == r && forall j | 0 <= j < i :: all[j].date < r.date;
  }

  /** The first backup's diff: every listed path, tagged Add. */
  lemma {:induction false} FirstPlan(live: seq<Entry>, now: int)
    requires live != [] && UniquePaths(live)
    ensures PlanBackup([], live, now).Diffed?
    ensures var es := PlanBackup([], live, now).diff.entries;
            && (forall e | e in es :: e.action == Add)
            && RemovedPaths(es) == {} && PP.AddPaths(es) == Paths(live)
  {
    BuildEmpty(now, now);
    var es := Trim(Syncronized(Snapshot(now, []), Snapshot(now, live), now), now).entries;
    SP.FirstDiff(Snapshot(now, live), now, now, now);
    assert live[0].path in Paths(es);
    assert PlanBackup([], live, now) == Diffed(Snapshot(now, es));
  }

  /** End to end, the first backup: restoring the archive of a first
      backup onto an empty directory gives exactly the listed files with
      their contents, when every listed file is readable and none is the
      output file. */
  lemma {:induction false} FirstRestore(live: seq<Entry>, files: map<string, seq<bv8>>, readable: set<string>,
                                        output: Option<string>, now: int, dirs: set<string>, order: seq<string>)
    requires live != [] && UniquePaths(live) && Paths(live) == files.Keys && "" !in files
    requires files.Keys <= readable && (output.None? || output.value !in files)
    requires Listing(order, BackupArchive([], live, files, readable, output, now))
    ensures PlanBackup([], live, now).Diffed?
    ensures Restored(Tree(map[], dirs, []), LatestEntries([] + [PlanBackup([], live, now).diff]),
                     BackupArchive([], live, files, readable, output, now), order).files == files
  {
    FirstPlan(live, now);
    var d := PlanBackup([], live, now).diff;
    LatestAppended([], d);
    RestoreByDiff(Tree(map[], dirs, []), d.entries, files, readable, output, order);
  }

  /** A later backup's diff, when every new path carries a new hash: no
      Move, the lost paths removed, the new paths added, only listed paths
      added, and a path both hold and the diff does not add is no newer in
      the listing than in the state. */
  lemma {:induction false} StepPlan(ss: seq<Snapshot>, live: seq<Entry>, now: int)
    requires Build(ss, now, now).Some?
    requires var base := Build(ss, now, now).value.entries;
             UniquePaths(base) && AllNone(base) && SP.NewPathsNewHashes(base, live)
    requires PlanBackup(ss, live, now).Diffed?
    ensures var base := Build(ss, now, now).value.entries;
            var d := PlanBackup(ss, live, now).diff;
            && d.date == now
            && (forall e | e in d.entries :: e.action != Move)
            && RemovedPaths(d.entries) == Paths(base) - Paths(live)
            && Paths(live) - Paths(base) <= PP.AddPaths(d.entries) <= Paths(live)
            && (forall b, l | b in base && l in live && l.path == b.path && b.path !in PP.AddPaths(d.entries) ::
                  l.lastModified <= b.lastModified)
  {
    var base := Build(ss, now, now).value;
    var target := Snapshot(now, live);
    var synced := Syncronized(base, target, now);
    var d := Trim(synced, now);
    assert PlanBackup(ss, live, now) == Diffed(d);
    PP.RemovedPathsTagged(synced.entries);
    assert PP.AddPaths(d.entries) == PP.AddPaths(synced.entries);
    SP.DiffRemoves(base, target, now);
    SP.DiffAddsNew(base, target, now);
    SP.DiffAddsWithin(base, target, now);
    UnaddedNotNewer(base, target, now);
  }

  /** Without renames, a base path the listing holds and the diff does not
      add is no newer in the listing. */
  lemma {:induction false} UnaddedNotNewer(base: Snapshot, target: Snapshot, now: int)
    requires UniquePaths(base.entries) && AllNone(base.entries) && SP.NewPathsNewHashes(base.entries, target.entries)
    ensures var r := Syncronized(base, target, now).entries;
            forall b, l | b in base.entries && l in target.entries && l.path == b.path && b.path !in PP.AddPaths(r) ::
              l.lastModified <= b.lastModified
  {
    var r := Syncronized(base, target, now).entries;
    SP.DiffAddsWithin(base, target, now);
    forall b, l | b in base.entries && l in target.entries && l.path == b.path && b.path !in PP.AddPaths(r)
      ensures l.lastModified <= b.lastModified
    {
      var k :| 0 <= k < |base.entries| && base.entries[k] == b;
      UnaddedAt(base, target, now, k, l);
    }
  }

  /** `UnaddedNotNewer` for one base entry. */
  lemma {:induction false} UnaddedAt(base: Snapshot, target: Snapshot, now: int, k: nat, l: Entry)
    requires UniquePaths(base.entries) && k < |base.entries|
    requires forall e | e in Syncronized(base, target, now).entries :: e.action != Move
    requires l in target.entries && l.path == base.entries[k].path
    requires base.entries[k].path !in PP.AddPaths(Syncronized(base, target, now).entries)
    ensures l.lastModified <= base.entries[k].lastModified
  {
    var r := Syncronized(base, target, now).entries;
    var b := base.entries[k];
    assert b.path in Paths(target.entries);
    SP.SyncInBoth(base, target, now, k);
    assert PP.MoveSources(r) == {};
    assert SP.Updated(b, target.entries) in r;
  }

  /** End to end, a later backup: restoring its archive onto a directory
      that holds the chain's state gives exactly the listed files with
      their contents. This holds when every new path carries a new hash (so
      the diff detects no rename) and a file whose time is no newer than
      the state's holds the same content. */
  lemma {:induction false} RestoreStep(ss: seq<Snapshot>, live: seq<Entry>, files: map<string, seq<bv8>>, readable: set<string>,
                                       output: Option<string>, now: int, t: Tree, order: seq<string>)
    requires Build(ss, now, now).Some?
    requires var base := Build(ss, now, now).value.entries;
             UniquePaths(base) && AllNone(base) && SP.NewPathsNewHashes(base, live)
    requires UniquePaths(live) && Paths(live) == files.Keys && "" !in files
    requires files.Keys <= readable && (output.None? || output.value !in files)
    requires forall s | s in ss :: s.date < now
    requires t.files.Keys == Paths(Build(ss, now, now).value.entries)
    requires forall b, l | b in Build(ss, now, now).value.entries && l in live && l.path == b.path && l.lastModified <= b.lastModified ::
               b.path in t.files && b.path in files && t.files[b.path] == files[b.path]
    requires PlanBackup(ss, live, now).Diffed?
    requires Listing(order, BackupArchive(ss, live, files, readable, output, now))
    ensures Restored(t, LatestEntries(ss + [PlanBackup(ss, live, now).diff]),
                     BackupArchive(ss, live, files, readable, output, now), order).files == files
  {
    var base := Build(ss, now, now).value.entries;
    var d := PlanBackup(ss, live, now).diff;
    StepPlan(ss, live, now);
    LatestAppended(ss, d);
    forall p | p in t.files && p in files && p !in PP.AddPaths(d.entries)
      ensures t.files[p] == files[p]
    {
      var b :| b in base && b.path == p;
      var l :| l in live && l.path == p;
    }
    RestoreByDiff(t, d.entries, files, readable, output, order);
  }

  // ------------------------------------------------------ the app

  class SyncApp {
    const options: Options
    /** The archive directory: its files and its directories. */
    var files: map<string, seq<bv8>>
    var dirs: set<string>
    /** What the app has done outside its state, in order. */
    var effects: seq<SyncEffect>

    /** The constructor runs `ValidateOptions`. */
    constructor (options: Options, files: map<string, seq<bv8>>, dirs: set<string>)
      requires ValidateOptions(options).None?
      ensures this.options == options && this.files == files && this.dirs == dirs && effects == []
    {
      this.options := options;
      this.files := files;
      this.dirs := dirs;
      effects := [];
    }

    /** `Backup`: `live` is the listing of the archive directory, `readable`
        the paths that open, `output` the output file's path inside the
        archive, and `now` the clock. */
    method Backup(collection: SnapshotCollection, live: seq<Entry>, readable: set<string>, output: Option<string>, now: int)
      returns (r: BackupOutcome)
      requires ValidateOptions(options).None? && options.backup
      modifies this, collection
      ensures files == old(files) && dirs == old(dirs)
      ensures var p := PlanBackup(old(collection.snapshots), live, now);
              p.Fails? ==> r == p.outcome && collection.snapshots == old(collection.snapshots) && effects == old(effects)
      ensures var p := PlanBackup(old(collection.snapshots), live, now);
              p.Diffed? ==> (r == Archived && collection.snapshots == old(collection.snapshots) + [p.diff] &&
                             effects == old(effects) + ([SaveChain(collection.snapshots), WriteEntry(SnapshotFileName, options.snapshot.value)]
                                                        + Payload(p.diff.entries, readable, output)))
    {
      var base := collection.BuildSnapshot(now, now);
      if base.None? {
        return PatchFailed;
      }
      if !UniquePaths(base.value.entries) {
        return DuplicatePaths;
      }
      var synced := Syncronize(base.value, Snapshot(now, live), now);
      var diff := Trim(synced, now);
      if |diff.entries| == 0 {
        return NoChangesDetected;
      }
      collection.Append(diff);
      var head := [SaveChain(collection.snapshots), WriteEntry(SnapshotFileName, options.snapshot.value)];
      effects := effects + head;
      WritePayload(diff.entries, readable, output);
      AppendAssoc(old(effects), head, Payload(diff.entries, readable, output));
      r := Archived;
    }

    /** The loop over the diff's Add entries. */
    method WritePayload(es: seq<Entry>, readable: set<string>, output: Option<string>)
      modifies this
      ensures files == old(files) && dirs == old(dirs)
      ensures effects == old(effects) + Payload(es, readable, output)
    {
      var written := effects;
      var i := 0;
      while i < |es|
        invariant 0 <= i <= |es|
        invariant unchanged(this)
        invariant written == effects + Payload(es[..i], readable, output)
      {
        var e := es[i];
        PayloadNext(effects, es, i, readable, output);
        if e.action == Add && output != Some(e.path) {
          if e.path in readable {
            written := written + [WriteEntry(SnapshotFolder + "/" + e.path, e.path)];
          } else {
            written := written + [LogError(e.path)];
          }
        }
        i := i + 1;
      }
      assert es[..i] == es;
      effects := written;
    }

    /** `Restore`: `stored` is what the extracted chain file holds,
        `extracted` the files the tar extracted to the temporary folder
        and `order` the order the folder lists them in once the chain file
        is deleted. */
    method Restore(stored: StoredChain, extracted: map<string, seq<bv8>>, order: seq<string>)
      requires ValidateOptions(options).None?
      requires forall n | n in order :: n in extracted
      modifies this
      ensures var entries := LatestEntries(if stored.Stored? then stored.snapshots else []);
              Tree(files, dirs, effects) == Restored(Tree(old(files), old(dirs), old(effects)), entries, extracted, order)
    {
      var collection := new SnapshotCollection.Load(stored, options.archivePath.value);
      var latest := Latest(collection.snapshots);
      var entries := if latest.Some? then latest.value.entries else [];
      assert entries == LatestEntries(if stored.Stored? then stored.snapshots else []);
      RemoveAll(entries);
      MoveAll(entries);
      OverlayAll(extracted, order);
    }

    method RemoveAll(es: seq<Entry>)
      modifies this
      ensures Tree(files, dirs, effects) == RemovePass(Tree(old(files), old(dirs), old(effects)), es)
    {
      var i := 0;
      while i < |es|
        invariant 0 <= i <= |es|
        invariant Tree(files, dirs, effects) == RemovePass(Tree(old(files), old(dirs), old(effects)), es[..i])
      {
        RemovePassNext(Tree(old(files), old(dirs), old(effects)), es, i);
        if es[i].action == Remove && es[i].path in files {
          files := files - {es[i].path};
        }
        i := i + 1;
      }
      assert es[..i] == es;
    }

    method MoveAll(es: seq<Entry>)
      modifies this
      ensures Tree(files, dirs, effects) == MovePass(Tree(old(files), old(dirs), old(effects)), es)
    {
      var i := 0;
      while i < |es|
        invariant 0 <= i <= |es|
        invariant Tree(files, dirs, effects) == MovePass(Tree(old(files), old(dirs), old(effects)), es[..i])
      {
        MovePassNext(Tree(old(files), old(dirs), old(effects)), es, i);
        ghost var before := Tree(files, dirs, effects);
        var e := es[i];
        if e.action == Move {
          if e.moveFrom.None? {
            effects := effects + [LogError(e.path)];
          } else if e.moveFrom.value in files {
            if e.path in files || !HasDir(dirs, e.path) {
              effects := effects + [LogError(e.path)];
            } else {
              files := (files - {e.moveFrom.value})[e.path := files[e.moveFrom.value]];
            }
          }
        }
        assert Tree(files, dirs, effects) == MoveFile(before, e);
        i := i + 1;
      }
      assert es[..i] == es;
    }

    method OverlayAll(extracted: map<string, seq<bv8>>, order: seq<string>)
      requires forall n | n in order :: n in extracted
      modifies this
      ensures Tree(files, dirs, effects) == Overlay(Tree(old(files), old(dirs), old(effects)), extracted, order)
    {
      var i := 0;
      while i < |order|
        invariant 0 <= i <= |order|
        invariant Tree(files, dirs, effects) == Overlay(Tree(old(files), old(dirs), old(effects)), extracted, order[..i])
      {
        assert Init(order[..i + 1]) == order[..i] && Last(order[..i + 1]) == order[i];
        var name := order[i];
        var target := Target(name);
        if target.None? {
          effects := effects + [LogError(name)];
        } else {
          files := files[target.value := extracted[name]];
          dirs := dirs + Ancestors(target.value);
        }
        i := i + 1;
      }
      assert order[..i] == order;
    }
  }
}
