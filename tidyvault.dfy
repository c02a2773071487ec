/*
  TidyVaultApp: aborts every pending multipart upload, then, for each
  archive name in the vault inventory, deletes every archive that comes
  after the newest base archive of that name in newest-first order. The
  sort is stable, so an archive dated the same as that base is kept only
  if the inventory lists it before the base.
*/
module TidyVault {
  import opened Wrappers
  import opened StringExtensions
  import opened Archives

  /** `VaultInventory.ArchiveEntry` as the inventory lists it: the id, the
      creation time and the description the archive was uploaded with. */
  datatype ArchiveEntry = ArchiveEntry(archiveId: string, created: int, description: string)

  /** An inventory entry with its `Metadata` read from the description. */
  datatype Archive = Archive(archiveId: string, created: int, metadata: ArchiveMetaData)

  /** Reads every entry's `Metadata` (the grouping key reads it for each
      entry before anything is deleted); `None` when some description makes
      `FromDescription` throw. */
  function ReadInventory(inventory: seq<ArchiveEntry>): (r: Option<seq<Archive>>)
    ensures r.Some? <==> forall e | e in inventory :: FromDescription(e.description).Some?
    ensures r.Some? ==> |r.value| == |inventory| && forall i | 0 <= i < |inventory| ::
      && FromDescription(inventory[i].description).Some?
      && r.value[i] == Archive(inventory[i].archiveId, inventory[i].created,
                               FromDescription(inventory[i].description).value)
  {
    if forall e | e in inventory :: FromDescription(e.description).Some? then
      Some(seq(|inventory|, i requires 0 <= i < |inventory| =>
        assert inventory[i] in inventory;
        Archive(inventory[i].archiveId, inventory[i].created, FromDescription(inventory[i].description).value)))
    else None
  }

  /** An archive is a base when one of its tags is the base tag. */
  predicate IsBase(a: Archive)
    ensures IsBase(a) <==> exists i | 0 <= i < |a.metadata.tags| :: a.metadata.tags[i] == BaseArchiveTag
  {
    BaseArchiveTag in a.metadata.tags
  }

  /** The grouping key `Metadata.Name.ToUpper()`; metadata read from a
      description always has a name. */
  function Key(a: Archive): (k: string)
    ensures |k| == |a.metadata.name.GetOr("")|
    ensures Upper(k) == k
  {
    Upper(a.metadata.name.GetOr(""))
  }

  // ------------------------------------------------------ grouping

  /** The archives with key `key`, in inventory order. */
  function Group(s: seq<Archive>, key: string): (g: seq<Archive>)
    ensures forall a | a in g :: a in s && Key(a) == key
    ensures s != [] && Key(s[0]) == key ==> g != [] && g[0] == s[0]
  {
    if s == [] then []
    else (if Key(s[0]) == key then [s[0]] else []) + Group(s[1..], key)
  }

  /** The archives with another key, in inventory order. */
  function Without(s: seq<Archive>, key: string): (r: seq<Archive>)
    ensures forall a | a in r :: a in s && Key(a) != key
    ensures |r| <= |s| && (s != [] && Key(s[0]) == key ==> |r| < |s|)
  {
    if s == [] then []
    else (if Key(s[0]) == key then [] else [s[0]]) + Without(s[1..], key)
  }

  /** `GroupBy(a => a.Metadata.Name.ToUpper())`: one group per key, in the
      order each key first occurs, each group in inventory order. */
  function Groups(s: seq<Archive>): (gs: seq<seq<Archive>>)
    ensures forall i | 0 <= i < |gs| :: gs[i] != []
    decreases |s|
  {
    if s == [] then []
    else [Group(s, Key(s[0]))] + Groups(Without(s, Key(s[0])))
  }

  /** Every archive is in its key's group or among the rest. */
  lemma {:induction false} SplitByKey(s: seq<Archive>, key: string)
    ensures multiset(Group(s, key)) + multiset(Without(s, key)) == multiset(s)
  {
    if s != [] {
      SplitByKey(s[1..], key);
      assert s == [s[0]] + s[1..];
    }
  }

  /** Removing one key leaves the groups of the others as they were. */
  lemma {:induction false} GroupWithout(s: seq<Archive>, removed: string, key: string)
    requires removed != key
    ensures Group(Without(s, removed), key) == Group(s, key)
  {
    if s != [] {
      GroupWithout(s[1..], removed, key);
      if Key(s[0]) == removed {
        assert Without(s, removed) == Without(s[1..], removed);
      } else {
        assert Without(s, removed) == [s[0]] + Without(s[1..], removed);
        assert Without(s, removed)[1..] == Without(s[1..], removed);
      }
    }
  }

  lemma {:induction false} GroupOfAbsent(s: seq<Archive>, key: string)
    requires forall a | a in s :: Key(a) != key
    ensures Group(s, key) == []
  {
    if s != [] {
      assert s[0] in s;
      GroupOfAbsent(s[1..], key);
    }
  }

  /** The groups have distinct keys, and each is the whole inventory's
      archives with its key. */
  lemma {:induction false} GroupsByKey(s: seq<Archive>)
    ensures forall i | 0 <= i < |Groups(s)| :: Groups(s)[i] == Group(s, Key(Groups(s)[i][0]))
    ensures forall i, j | 0 <= i < j < |Groups(s)| :: Key(Groups(s)[i][0]) != Key(Groups(s)[j][0])
    ensures forall g | g in Groups(s) :: forall a | a in g :: a in s
    decreases |s|
  {
    if s != [] {
      var k := Key(s[0]);
      var rest := Without(s, k);
      GroupsByKey(rest);
      var gs := Groups(s);
      assert gs[1..] == Groups(rest);
      forall i | 1 <= i < |gs|
        ensures gs[i] == Group(s, Key(gs[i][0])) && Key(gs[i][0]) != k
      {
        assert gs[i] == Groups(rest)[i - 1];
        assert gs[i] in Groups(rest);
        assert gs[i][0] in gs[i];
        GroupWithout(s, k, Key(gs[i][0]));
      }
      forall g | g in gs
        ensures forall a | a in g :: a in s
      {
        if g != gs[0] {
          assert g in Groups(rest);
        }
      }
    }
  }

  /** Archives of other keys leave a group untouched. */
  lemma {:induction false} GroupIgnoresOthers(s: seq<Archive>, others: seq<Archive>, key: string)
    requires forall a | a in others :: Key(a) != key
    ensures Group(s + others, key) == Group(s, key)
  {
    if s == [] {
      assert s + others == others;
      GroupOfAbsent(others, key);
    } else {
      GroupIgnoresOthers(s[1..], others, key);
      assert (s + others)[1..] == s[1..] + others;
    }
  }

  // ------------------------------------------------------ newest first

  predicate NewestFirst(s: seq<Archive>) {
    forall i, j | 0 <= i < j < |s| :: s[i].created >= s[j].created
  }

  /** Places `x` after every archive at least as new, so that equal times
      keep their order. */
  function Insert(s: seq<Archive>, x: Archive): (r: seq<Archive>)
    ensures |r| == |s| + 1
  {
    if s == [] then [x]
    else if s[0].created >= x.created then [s[0]] + Insert(s[1..], x)
    else [x] + s
  }

  lemma {:induction false} InsertNewestFirst(s: seq<Archive>, x: Archive)
    requires NewestFirst(s)
    ensures NewestFirst(Insert(s, x))
    ensures Insert(s, x)[0] == x || (s != [] && Insert(s, x)[0] == s[0])
  {
    if s != [] && s[0].created >= x.created {
      var t := Insert(s[1..], x);
      InsertNewestFirst(s[1..], x);
      assert t[0].created <= s[0].created;
      var r := [s[0]] + t;
      forall i, j | 0 <= i < j < |r| ensures r[i].created >= r[j].created {
        if i > 0 {
          assert r[i] == t[i - 1] && r[j] == t[j - 1];
        } else {
          assert r[j] == t[j - 1];
        }
      }
    }
  }

  lemma {:induction false} InsertKeeps(s: seq<Archive>, x: Archive)
    ensures multiset(Insert(s, x)) == multiset(s) + multiset{x}
  {
    if s != [] && s[0].created >= x.created {
      InsertKeeps(s[1..], x);
      assert s == [s[0]] + s[1..];
    }
  }

  /** `OrderByDescending(a => a.CreationDate)`: a stable sort, newest first. */
  function SortNewestFirst(s: seq<Archive>): (r: seq<Archive>)
    ensures |r| == |s|
  {
    if s == [] then [] else Insert(SortNewestFirst(Init(s)), Last(s))
  }

  /** The sort orders newest first and keeps every archive. */
  lemma {:induction false} SortSpec(s: seq<Archive>)
    ensures NewestFirst(SortNewestFirst(s)) && multiset(SortNewestFirst(s)) == multiset(s)
  {
    SortOrders(s);
    SortKeeps(s);
  }

  lemma {:induction false} SortOrders(s: seq<Archive>)
    ensures NewestFirst(SortNewestFirst(s))
  {
    if s != [] {
      SortOrders(Init(s));
      InsertNewestFirst(SortNewestFirst(Init(s)), Last(s));
    }
  }

  lemma {:induction false} SortKeeps(s: seq<Archive>)
    ensures multiset(SortNewestFirst(s)) == multiset(s)
  {
    if s != [] {
      SortKeeps(Init(s));
      InsertKeeps(SortNewestFirst(Init(s)), Last(s));
      assert s == Init(s) + [Last(s)];
    }
  }

  // ------------------------------------------------------ the selection

  /** `SkipWhile(a => !a.Metadata.Tags.Contains(BaseArchive))`. */
  function SkipToBase(s: seq<Archive>): seq<Archive> {
    if s == [] || IsBase(s[0]) then s else SkipToBase(s[1..])
  }

  /** `Skip(1)`. */
  function SkipOne(s: seq<Archive>): seq<Archive> {
    if s == [] then [] else s[1..]
  }

  /** `archivesToDelete` for one group: a group always keeps at least one
      archive. */
  function ToDelete(group: seq<Archive>): (r: seq<Archive>)
    ensures group != [] ==> |r| < |group|
  {
    SkipToFirstBase(SortNewestFirst(group));
    SkipOne(SkipToBase(SortNewestFirst(group)))
  }

  /** Where the first base archive is, `|s|` when there is none. */
  function FirstBase(s: seq<Archive>): (r: nat)
    ensures r <= |s| && (r < |s| ==> IsBase(s[r]))
    ensures forall j | 0 <= j < r :: !IsBase(s[j])
  {
    if s == [] || IsBase(s[0]) then 0 else 1 + FirstBase(s[1..])
  }

  lemma {:induction false} SkipToFirstBase(s: seq<Archive>)
    ensures SkipToBase(s) == s[FirstBase(s)..]
  {
    if s != [] && !IsBase(s[0]) {
      SkipToFirstBase(s[1..]);
      assert s[1..][FirstBase(s[1..])..] == s[FirstBase(s)..];
    }
  }

  /** In a newest-first list, the archives after the first base archive
      are deleted, and those up to it kept; without a base archive
      nothing is deleted. Nothing deleted is newer than the kept base. */
  lemma {:induction false} Selection(s: seq<Archive>)
    requires NewestFirst(s)
    ensures FirstBase(s) == |s| ==> SkipOne(SkipToBase(s)) == []
    ensures FirstBase(s) < |s| ==> SkipOne(SkipToBase(s)) == s[FirstBase(s) + 1..]
    ensures FirstBase(s) < |s| ==> forall a | a in SkipOne(SkipToBase(s)) :: a.created <= s[FirstBase(s)].created
  {
    SkipToFirstBase(s);
  }

  /** Three archives of one name, all dated alike, the base in the middle:
      the stable sort keeps their order, so the archive listed before the
      base is kept and the one listed after it is deleted. */
  lemma {:induction false} SameDateTie()
    ensures var x := Archive("x", 5, ArchiveMetaData(Some("n"), Option.None, 5, []));
            var b := Archive("b", 5, ArchiveMetaData(Some("n"), Option.None, 5, [BaseArchiveTag]));
            var y := Archive("y", 5, ArchiveMetaData(Some("n"), Option.None, 5, []));
            ToDelete([x, b, y]) == [y]
  {
    var x := Archive("x", 5, ArchiveMetaData(Some("n"), Option.None, 5, []));
    var b := Archive("b", 5, ArchiveMetaData(Some("n"), Option.None, 5, [BaseArchiveTag]));
    var y := Archive("y", 5, ArchiveMetaData(Some("n"), Option.None, 5, []));
    assert Init([x, b, y]) == [x, b] && Init([x, b]) == [x] && Init([x]) == [];
    assert SortNewestFirst([x]) == [x];
    assert SortNewestFirst([x, b]) == Insert([x], b) == [x, b];
    assert Insert([b], y) == [b, y];
    assert SortNewestFirst([x, b, y]) == Insert([x, b], y) == [x, b, y];
    assert !IsBase(x) && IsBase(b);
    assert SkipToBase([x, b, y]) == [b, y];
  }

  /** For a group in newest-first order: the first base archive is as new
      as every base archive of the group, everything after it is deleted
      and nothing deleted is newer; a group without a base archive loses
      nothing. */
  lemma {:induction false} GroupSelection(group: seq<Archive>)
    ensures var s := SortNewestFirst(group);
            FirstBase(s) == |s| <==> forall a | a in group :: !IsBase(a)
    ensures var s := SortNewestFirst(group);
            FirstBase(s) == |s| ==> ToDelete(group) == []
    ensures var s := SortNewestFirst(group);
            var i := FirstBase(s);
            i < |s| ==>
              && ToDelete(group) == s[i + 1..]
              && (forall b | b in group && IsBase(b) :: b.created <= s[i].created)
              && (forall a | a in ToDelete(group) :: a.created <= s[i].created)
  {
    var s := SortNewestFirst(group);
    SortSpec(group);
    Selection(s);
    assert ToDelete(group) == SkipOne(SkipToBase(s));
    var i := FirstBase(s);
    if i == |s| {
      forall a | a in group ensures !IsBase(a) {
        assert a in multiset(s);
        var j :| 0 <= j < |s| && s[j] == a;
      }
    } else {
      assert s[i] in multiset(group);
      forall b | b in group && IsBase(b) ensures b.created <= s[i].created {
        assert b in multiset(s);
        var j :| 0 <= j < |s| && s[j] == b;
        FirstBaseNewest(s, j);
      }
    }
  }

  /** In a newest-first list, the first base archive is as new as any. */
  lemma {:induction false} FirstBaseNewest(s: seq<Archive>, j: int)
    requires NewestFirst(s) && 0 <= j < |s| && IsBase(s[j])
    ensures FirstBase(s) <= j && s[j].created <= s[FirstBase(s)].created
  {
    var i := FirstBase(s);
    if i < j {
      assert s[i].created >= s[j].created;
    }
  }

  /** What a group loses is part of the group. */
  lemma {:induction false} ToDeleteWithin(group: seq<Archive>)
    ensures multiset(ToDelete(group)) <= multiset(group)
  {
    var s := SortNewestFirst(group);
    SkipToFirstBase(s);
    var i := FirstBase(s);
    if i < |s| {
      assert ToDelete(group) == s[i + 1..];
      SuffixWithin(s, i + 1);
      SortKeeps(group);
    }
  }

  lemma {:induction false} SuffixWithin(s: seq<Archive>, k: int)
    requires 0 <= k <= |s|
    ensures multiset(s[k..]) <= multiset(s)
  {
    assert s == s[..k] + s[k..];
  }

  // ------------------------------------------------------ the plan

  /** The archives deleted for each group, one group after another. */
  function PlanOf(gs: seq<seq<Archive>>): seq<Archive> {
    if gs == [] then [] else ToDelete(gs[0]) + PlanOf(gs[1..])
  }

  /** The archives `RemoveAbandonedArchives` deletes, in order. */
  function Plan(inventory: seq<Archive>): (r: seq<Archive>)
    ensures |r| <= |inventory|
    ensures forall a | a in r :: a in inventory
  {
    DeletedOnce(inventory);
    Within(PlanOf(Groups(inventory)), inventory);
    PlanOf(Groups(inventory))
  }

  lemma {:induction false} Within(a: seq<Archive>, b: seq<Archive>)
    requires multiset(a) <= multiset(b)
    ensures |a| <= |b| && forall x | x in a :: x in b
  {
    assert multiset(b) == multiset(a) + (multiset(b) - multiset(a));
    forall x | x in a ensures x in b {
      assert x in multiset(a);
    }
  }

  lemma {:induction false} PlanOfSnoc(gs: seq<seq<Archive>>, g: seq<Archive>)
    ensures PlanOf(gs + [g]) == PlanOf(gs) + ToDelete(g)
  {
    if gs == [] {
      assert gs + [g] == [g] && [g][1..] == [];
    } else {
      var rest, d := gs[1..], ToDelete(gs[0]);
      assert (gs + [g])[0] == gs[0] && (gs + [g])[1..] == rest + [g];
      PlanOfSnoc(rest, g);
      PlanOfCons(gs + [g]);
      PlanOfCons(gs);
      assert d + (PlanOf(rest) + ToDelete(g)) == (d + PlanOf(rest)) + ToDelete(g);
    }
  }

  lemma {:induction false} PlanOfCons(gs: seq<seq<Archive>>)
    requires gs != []
    ensures PlanOf(gs) == ToDelete(gs[0]) + PlanOf(gs[1..])
  {
  }

  /** Each archive is deleted at most as often as the inventory lists it. */
  lemma {:induction false} DeletedOnce(inventory: seq<Archive>)
    ensures multiset(PlanOf(Groups(inventory))) <= multiset(inventory)
    decreases |inventory|
  {
    if inventory != [] {
      var k := Key(inventory[0]);
      var rest := Without(inventory, k);
      assert Groups(inventory)[1..] == Groups(rest);
      assert PlanOf(Groups(inventory)) == ToDelete(Group(inventory, k)) + PlanOf(Groups(rest));
      DeletedOnce(rest);
      ToDeleteWithin(Group(inventory, k));
      SplitByKey(inventory, k);
    }
  }

  /** An archive is deleted only as part of the group of its own name. */
  lemma {:induction false} DeletedFromOwnGroup(inventory: seq<Archive>, g: seq<Archive>, a: Archive)
    requires g in Groups(inventory) && a in ToDelete(g)
    ensures g == Group(inventory, Key(a))
  {
    GroupsByKey(inventory);
    var i :| 0 <= i < |Groups(inventory)| && Groups(inventory)[i] == g;
    ToDeleteWithin(g);
    assert a in multiset(g);
  }

  /** An archive is deleted only when its group holds a base archive at
      least as new. */
  lemma {:induction false} DeletedBehindBase(g: seq<Archive>, a: Archive)
    requires a in ToDelete(g)
    ensures exists b | b in g :: IsBase(b) && a.created <= b.created
  {
    var s := SortNewestFirst(g);
    SortSpec(g);
    Selection(s);
    var i := FirstBase(s);
    assert i < |s|;
    assert a.created <= s[i].created;
    assert s[i] in multiset(g);
  }

  // ------------------------------------------------------ the app

  /** The calls `TidyVaultApp` makes on the Glacier service, in order. */
  datatype VaultCall = AbortUpload(uploadId: string) | DeleteArchive(archiveId: string)

  function Aborts(ids: seq<string>): (r: seq<VaultCall>)
    ensures |r| == |ids| && forall i | 0 <= i < |ids| :: r[i] == AbortUpload(ids[i])
  {
    seq(|ids|, i requires 0 <= i < |ids| => AbortUpload(ids[i]))
  }

  function Deletes(archives: seq<Archive>): (r: seq<VaultCall>)
    ensures |r| == |archives| && forall i | 0 <= i < |archives| :: r[i] == DeleteArchive(archives[i].archiveId)
  {
    seq(|archives|, i requires 0 <= i < |archives| => DeleteArchive(archives[i].archiveId))
  }

  lemma {:induction false} DeletesAppend(a: seq<Archive>, b: seq<Archive>)
    ensures Deletes(a + b) == Deletes(a) + Deletes(b)
  {
  }

  lemma {:induction false} AppendAssoc(a: seq<VaultCall>, b: seq<VaultCall>, c: seq<VaultCall>)
    ensures (a + b) + c == a + (b + c)
  {
  }

  /** The deletes `RemoveAbandonedArchives` makes for an inventory: the
      plan for its archives, or nothing when some metadata cannot be read
      (the grouping throws before the first delete). */
  function Tidied(inventory: seq<ArchiveEntry>): (r: seq<VaultCall>)
    ensures forall c | c in r :: c.DeleteArchive?
    ensures ReadInventory(inventory).None? ==> r == []
  {
    match ReadInventory(inventory)
    case Some(archives) => Deletes(Plan(archives))
    case None => []
  }

  lemma {:induction false} TidiedRead(inventory: seq<ArchiveEntry>, archives: seq<Archive>)
    requires ReadInventory(inventory) == Some(archives)
    ensures Tidied(inventory) == Deletes(PlanOf(Groups(archives)))
  {
  }

  /** One unreadable description anywhere in the inventory stops every
      delete, those of other names included. */
  lemma {:induction false} UnreadableDeletesNothing(inventory: seq<ArchiveEntry>, i: nat)
    requires i < |inventory| && FromDescription(inventory[i].description).None?
    ensures Tidied(inventory) == []
  {
    assert inventory[i] in inventory;
  }

  /** Every abort comes before every delete. */
  lemma {:induction false} AbortsFirst(pending: seq<string>, inventory: seq<ArchiveEntry>, i: int, j: int)
    requires 0 <= i < j < |Aborts(pending) + Tidied(inventory)|
    requires (Aborts(pending) + Tidied(inventory))[i].DeleteArchive?
    ensures (Aborts(pending) + Tidied(inventory))[j].DeleteArchive?
  {
    CallsAfter(Aborts(pending), Tidied(inventory), i, j);
  }

  lemma {:induction false} CallsAfter(aborts: seq<VaultCall>, deletes: seq<VaultCall>, i: int, j: int)
    requires forall c | c in aborts :: c.AbortUpload?
    requires forall c | c in deletes :: c.DeleteArchive?
    requires 0 <= i < j < |aborts + deletes| && (aborts + deletes)[i].DeleteArchive?
    ensures (aborts + deletes)[j].DeleteArchive?
  {
    var calls := aborts + deletes;
    assert forall k | 0 <= k < |aborts| :: calls[k] == aborts[k] && aborts[k] in aborts;
    assert calls[j] == deletes[j - |aborts|] && deletes[j - |aborts|] in deletes;
  }

  class TidyVaultApp {
    /** The calls made on the Glacier service so far. */
    var calls: seq<VaultCall>

    constructor ()
      ensures calls == []
    {
      calls := [];
    }

    /** `Run`: `pending` is what `FetchPendingUploads` answers and
        `inventory` what `FetchInventory` answers. */
    method Run(pending: seq<string>, inventory: seq<ArchiveEntry>) returns (ok: bool)
      modifies this
      ensures ok <==> ReadInventory(inventory).Some?
      ensures calls == old(calls) + (Aborts(pending) + Tidied(inventory))
    {
      AbortPendingUploads(pending);
      ok := RemoveAbandonedArchives(inventory);
      AppendAssoc(old(calls), Aborts(pending), Tidied(inventory));
    }

    method AbortPendingUploads(pending: seq<string>)
      modifies this
      ensures calls == old(calls) + Aborts(pending)
    {
      var i := 0;
      while i < |pending|
        invariant 0 <= i <= |pending|
        invariant calls == old(calls) + Aborts(pending[..i])
      {
        assert Aborts(pending[..i + 1]) == Aborts(pending[..i]) + [AbortUpload(pending[i])];
        AppendAssoc(old(calls), Aborts(pending[..i]), [AbortUpload(pending[i])]);
        calls := calls + [AbortUpload(pending[i])];
        i := i + 1;
      }
      assert pending[..i] == pending;
    }

    /** `ok` is false where the source throws: some description cannot be
        read, and nothing is deleted. */
    method RemoveAbandonedArchives(inventory: seq<ArchiveEntry>) returns (ok: bool)
      modifies this
      ensures ok <==> ReadInventory(inventory).Some?
      ensures calls == old(calls) + Tidied(inventory)
    {
      var read := ReadInventory(inventory);
      if read.None? {
        ok := false;
        return;
      }
      ok := true;
      var archives := read.value;
      TidiedRead(inventory, archives);
      DeleteGroups(Groups(archives));
    }

    /** The loop over the groups: each group's `archivesToDelete`, in turn. */
    method DeleteGroups(items: seq<seq<Archive>>)
      modifies this
      ensures calls == old(calls) + Deletes(PlanOf(items))
    {
      var i := 0;
      while i < |items|
        invariant 0 <= i <= |items|
        invariant calls == old(calls) + Deletes(PlanOf(items[..i]))
      {
        var archivesToDelete := ToDelete(items[i]);
        DeleteAll(archivesToDelete);
        PlanOfSnoc(items[..i], items[i]);
        assert items[..i + 1] == items[..i] + [items[i]];
        DeletesAppend(PlanOf(items[..i]), archivesToDelete);
        AppendAssoc(old(calls), Deletes(PlanOf(items[..i])), Deletes(archivesToDelete));
        i := i + 1;
      }
      assert items[..i] == items;
    }

    /** The delete loop over one group's `archivesToDelete`. */
    method DeleteAll(archives: seq<Archive>)
      modifies this
      ensures calls == old(calls) + Deletes(archives)
    {
      var j := 0;
      while j < |archives|
        invariant 0 <= j <= |archives|
        invariant calls == old(calls) + Deletes(archives[..j])
      {
        assert Deletes(archives[..j + 1]) == Deletes(archives[..j]) + [DeleteArchive(archives[j].archiveId)];
        AppendAssoc(old(calls), Deletes(archives[..j]), [DeleteArchive(archives[j].archiveId)]);
        calls := calls + [DeleteArchive(archives[j].archiveId)];
        j := j + 1;
      }
      assert archives[..j] == archives;
    }
  }
}
