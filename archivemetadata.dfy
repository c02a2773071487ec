/*
  ArchiveMetaData: what a vault archive's description records (its name,
  the path it was made from, its creation time and its tags) and the
  `Name|Path|Ticks|tags` text it is stored as.
*/
module Archives {
  import opened Wrappers
  import opened StringExtensions

  /** `ArchiveTags`. */
  const SnapshotTag: string := "snapshot"
  const BaseArchiveTag: string := "base-archive"

  /** The largest tick count a `DateTime` holds. */
  const MaxTicks: int := 3155378975999999999

  /** The metadata; `created` is in ticks, and `tags` lists the tag set in
      its enumeration order (the order tags were first added). */
  datatype ArchiveMetaData = ArchiveMetaData(name: Option<string>, path: Option<string>, created: nat, tags: seq<string>)

  /** `new ArchiveMetaData(name, path)`, created at the clock `now`. */
  function Make(name: Option<string>, path: Option<string>, now: nat): (m: ArchiveMetaData)
    ensures m.name == name && m.path == path && m.created == now && m.tags == []
  {
    ArchiveMetaData(name, path, now, [])
  }

  /** `Path.GetFileName`: what follows the last '/'. */
  function FileName(path: string): (r: string)
    ensures '/' !in r
    ensures |r| <= |path| && r == path[|path| - |r|..]
    ensures |r| < |path| ==> path[|path| - |r| - 1] == '/'
  {
    if path == [] then []
    else if Last(path) == '/' then []
    else FileName(Init(path)) + [Last(path)]
  }

  /** `new ArchiveMetaData(path)`: named after the path's last segment. */
  function FromPath(path: Option<string>, now: nat): (m: ArchiveMetaData)
    ensures m.path == path && m.created == now && m.tags == []
    ensures path.None? ==> m.name.None?
    ensures path.Some? ==> m.name == Some(FileName(path.value))
  {
    Make(if path.None? then None else Some(FileName(path.value)), path, now)
  }

  lemma {:induction false} FromPathExample(now: nat)
    ensures FromPath(Some("path/to/file"), now).name == Some("file")
  {
    assert "path/to/file" == "path/to/" + "file";
    FileNameAfterSlash("path/to", "file");
    assert "path/to" + "/" + "file" == "path/to/file";
  }

  lemma {:induction false} FileNameSnoc(x: string, ch: char)
    ensures FileName(x + [ch]) == if ch == '/' then [] else FileName(x) + [ch]
  {
    assert Last(x + [ch]) == ch;
    assert Init(x + [ch]) == x;
  }

  /** The name is what follows the last '/'. */
  lemma {:induction false} FileNameAfterSlash(dir: string, file: string)
    requires '/' !in file
    ensures FileName(dir + "/" + file) == file
    decreases |file|
  {
    SlashSplit(dir, file);
    if file == [] {
      FileNameSnoc(dir, '/');
    } else {
      FileNameAfterSlash(dir, Init(file));
      FileNameSnoc(dir + "/" + Init(file), Last(file));
    }
  }

  lemma {:induction false} SlashSplit(dir: string, file: string)
    requires '/' !in file
    ensures file == [] ==> dir + "/" + file == dir + ['/']
    ensures file != [] ==> '/' !in Init(file) && Last(file) != '/'
    ensures file != [] ==> (dir + "/" + Init(file)) + [Last(file)] == dir + "/" + file
  {
    if file != [] {
      assert forall x | x in Init(file) :: x in file;
      assert Last(file) in file;
      assert Init(file) + [Last(file)] == file;
    }
  }

  // ------------------------------------------------------ tag lists

  /** `StringSplitOptions.RemoveEmptyEntries`. */
  function NonEmpty(pieces: seq<string>): (r: seq<string>)
    ensures forall x | x in r :: x != "" && x in pieces
  {
    if pieces == [] then []
    else (if pieces[0] == "" then [] else [pieces[0]]) + NonEmpty(pieces[1..])
  }

  /** `new HashSet<string>(pieces)`: each piece once, in first-seen order. */
  function TagSet(pieces: seq<string>): seq<string> {
    DistinctBy(pieces, (x: string) => x)
  }

  lemma {:induction false} NonEmptyKeeps(pieces: seq<string>)
    requires forall x | x in pieces :: x != ""
    ensures NonEmpty(pieces) == pieces
  {
    if pieces != [] {
      assert pieces[0] in pieces;
      assert forall x | x in pieces[1..] :: x in pieces;
      NonEmptyKeeps(pieces[1..]);
      assert pieces == [pieces[0]] + pieces[1..];
    }
  }

  predicate Distinct(s: seq<string>) {
    forall i, j | 0 <= i < j < |s| :: s[i] != s[j]
  }

  lemma {:induction false} TagSetDistinct(s: seq<string>)
    requires Distinct(s)
    ensures TagSet(s) == s
  {
    if s != [] {
      TagSetDistinct(Init(s));
      var r := DistinctBy(Init(s), (x: string) => x);
      assert r == Init(s);
      assert !exists j | 0 <= j < |r| :: r[j] == Last(s);
      assert s == Init(s) + [Last(s)];
    }
  }

  /** How the tag field of a description reads back. */
  function ParseTags(field: string): seq<string> {
    TagSet(NonEmpty(SplitOn(field, ',')))
  }

  /** A tag set reads back from its joined text, when no tag is empty or
      holds a comma. */
  lemma {:induction false} TagsRoundTrip(tags: seq<string>)
    requires Distinct(tags)
    requires forall t | t in tags :: t != "" && ',' !in t
    ensures ParseTags(JoinWith(tags, ',')) == tags
  {
    if tags == [] {
      assert SplitOn("", ',') == [""];
    } else {
      SplitJoin(tags, ',');
      NonEmptyKeeps(tags);
    }
    TagSetDistinct(tags);
  }

  // ------------------------------------------------------ descriptions

  /** `ToDescription`: `Name|Path|Ticks|tags`, a null name or path written
      as nothing. */
  function ToDescription(m: ArchiveMetaData): (d: string)
    ensures |d| >= 3
  {
    m.name.GetOr("") + "|" + m.path.GetOr("") + "|" + Show(m.created) + "|" + JoinWith(m.tags, ',')
  }

  /** `FromDescription`: `None` where `new DateTime(ticks)` throws, for a
      tick count outside `[0, MaxTicks]`; an unparsable count reads as 0. */
  function FromDescription(description: string): (r: Option<ArchiveMetaData>)
    ensures r.Some? ==> r.value.name.Some? && r.value.path.Some? && r.value.created <= MaxTicks
    ensures r.Some? ==> forall t | t in r.value.tags :: t != "" && ',' !in t
  {
    var name := SplitFirst(description, "|");
    var path := SplitFirst(name.remaining, "|");
    var date := SplitFirst(path.remaining, "|");
    var ticks := ToLong(Some(date.head));
    if 0 <= ticks <= MaxTicks then
      var tags := ParseTags(date.remaining);
      TagsClean(date.remaining);
      Some(ArchiveMetaData(Some(name.head), Some(path.head), ticks, tags))
    else None
  }

  lemma {:induction false} TagsClean(field: string)
    ensures forall t | t in ParseTags(field) :: t != "" && ',' !in t
  {
    var pieces := NonEmpty(SplitOn(field, ','));
    SplitOnClean(field, ',');
    DistinctByKeepsFrom(pieces);
  }

  lemma {:induction false} DistinctByKeepsFrom(pieces: seq<string>)
    ensures forall t | t in TagSet(pieces) :: t in pieces
  {
    DistinctByFirst(pieces, (x: string) => x);
  }

  /** How a description with all four fields reads back. */
  lemma {:induction false} ReadFields(n: string, p: string, date: string, tags: string)
    requires '|' !in n && '|' !in p && '|' !in date
    ensures var ticks := ToLong(Some(date));
            FromDescription(n + "|" + p + "|" + date + "|" + tags)
            == if 0 <= ticks <= MaxTicks
               then Some(ArchiveMetaData(Some(n), Some(p), ticks, ParseTags(tags)))
               else None
  {
    var d := n + "|" + p + "|" + date + "|" + tags;
    assert d == n + "|" + (p + "|" + date + "|" + tags);
    SplitFirstJoin(n, "|", p + "|" + date + "|" + tags);
    assert p + "|" + date + "|" + tags == p + "|" + (date + "|" + tags);
    SplitFirstJoin(p, "|", date + "|" + tags);
    SplitFirstJoin(date, "|", tags);
  }

  /** The description round trip: a metadata record reads back from its
      description when its name and path hold no '|', its time is a valid
      `DateTime`, and its tags are distinct, non-empty and comma-free. */
  lemma {:induction false} DescriptionRoundTrip(m: ArchiveMetaData)
    requires m.name.Some? && m.path.Some? && m.created <= MaxTicks
    requires '|' !in m.name.value && '|' !in m.path.value
    requires Distinct(m.tags) && forall t | t in m.tags :: t != "" && ',' !in t
    ensures FromDescription(ToDescription(m)) == Some(m)
  {
    var t := Show(m.created);
    ShowDigits(m.created);
    assert '|' !in t by {
      forall i | 0 <= i < |t| ensures t[i] != '|' {
        assert IsDigit(t[i]);
      }
    }
    ReadFields(m.name.value, m.path.value, t, JoinWith(m.tags, ','));
    ToIntShow(m.created, false);
    assert "" + t == t;
    TagsRoundTrip(m.tags);
  }

  /** A description without '|' is all name: empty path, 0 ticks, no tags. */
  lemma {:induction false} DescriptionWithoutFields(description: string)
    requires '|' !in description
    ensures FromDescription(description) == Some(ArchiveMetaData(Some(description), Some(""), 0, []))
  {
    SplitFirstAbsent(description, "|");
    SplitFirstAbsent("", "|");
    assert ToLong(Some("")) == 0;
    assert SplitOn("", ',') == [""];
  }

  /** A date field holding a tick count outside the DateTime range cannot
      be read: `new DateTime(ticks)` throws. */
  lemma {:induction false} DescriptionTicksOutOfRange(n: string, p: string, date: string, tags: string, ticks: int)
    requires '|' !in n && '|' !in p && '|' !in date
    requires ParseInteger(date, Int64Min, Int64Max) == Some(ticks)
    requires ticks < 0 || MaxTicks < ticks
    ensures FromDescription(n + "|" + p + "|" + date + "|" + tags).None?
  {
    ReadFields(n, p, date, tags);
  }

  /** A date field that is not a number reads as tick 0. */
  lemma {:induction false} DescriptionBadDate(n: string, p: string, date: string, tags: string)
    requires '|' !in n && '|' !in p && '|' !in date
    requires ParseInteger(date, Int64Min, Int64Max).None?
    ensures FromDescription(n + "|" + p + "|" + date + "|" + tags)
            == Some(ArchiveMetaData(Some(n), Some(p), 0, ParseTags(tags)))
  {
    ReadFields(n, p, date, tags);
  }
}
