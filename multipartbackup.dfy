/*
  MultipartBackupApp: streams its input through a StreamSplitter, uploads
  each non-empty chunk as one part of a Glacier multipart upload, and
  records the finished archive in the database, tagged as a base archive
  or as a snapshot of an existing one.
*/
module MultipartBackups {
  import opened Wrappers
  import opened StringExtensions
  import opened Archives
  import SS = StreamSplitters

  // ------------------------------------------------------ options

  /** Why `ValidateOptions` throws. */
  datatype OptionsError = InvalidChunkSize(chunkSize: int) | MissingPath

  /** `ValidateOptions`: the chunk size is checked before the path. */
  function ValidateOptions(chunkSize: int, path: Option<string>): (r: Option<OptionsError>)
    ensures r.None? <==> chunkSize > 0 && !IsEmpty(path)
    ensures chunkSize <= 0 ==> r == Some(InvalidChunkSize(chunkSize))
    ensures r == Some(MissingPath) <==> chunkSize > 0 && IsEmpty(path)
  {
    if chunkSize <= 0 then Some(InvalidChunkSize(chunkSize))
    else if IsEmpty(path) then Some(MissingPath)
    else None
  }

  // ------------------------------------------------------ database entries

  /** `BackupEntry`: its creation time, the archive id and the metadata. */
  datatype BackupEntry = BackupEntry(created: nat, archiveId: string, metadata: ArchiveMetaData)

  /** Whether some entry was made from `path`, ignoring case: an entry made
      from the very same path counts, and every match agrees with `path`
      once both are upper-cased. */
  predicate HasPath(entries: seq<BackupEntry>, path: string)
    ensures (exists e | e in entries :: e.metadata.path == Some(path)) ==> HasPath(entries, path)
    ensures HasPath(entries, path) ==> exists e | e in entries :: e.metadata.path.Some? && Upper(e.metadata.path.value) == Upper(path)
  {
    exists i | 0 <= i < |entries| :: EqualsCI(entries[i].metadata.path, Some(path))
  }

  /** The tag a new entry for `path` gets. */
  function TagFor(entries: seq<BackupEntry>, path: string): (t: string)
    ensures t == BaseArchiveTag || t == SnapshotTag
    ensures t == BaseArchiveTag <==> forall e | e in entries :: !EqualsCI(e.metadata.path, Some(path))
  {
    if HasPath(entries, path) then SnapshotTag else BaseArchiveTag
  }

  /** `new BackupEntry(archiveId, path)` with its one tag; the clock reads `now`. */
  function NewEntry(entries: seq<BackupEntry>, archiveId: string, path: string, now: nat): (e: BackupEntry)
    ensures e.archiveId == archiveId && e.metadata.path == Some(path)
    ensures e.metadata.name == Some(FileName(path))
    ensures e.metadata.tags == [TagFor(entries, path)]
  {
    var m := FromPath(Some(path), now);
    BackupEntry(now, archiveId, m.(tags := m.tags + [TagFor(entries, path)]))
  }

  /** Once a path is backed up, every later backup of it, in any case, is
      a snapshot. */
  lemma {:induction false} SecondBackupIsSnapshot(entries: seq<BackupEntry>, archiveId: string, path: string, now: nat, again: string)
    requires Upper(again) == Upper(path)
    ensures TagFor(entries + [NewEntry(entries, archiveId, path, now)], again) == SnapshotTag
  {
    var all := entries + [NewEntry(entries, archiveId, path, now)];
    assert EqualsCI(all[|entries|].metadata.path, Some(again));
  }

  /** Entries for other paths do not change the tag. */
  lemma {:induction false} TagIgnoresOtherPaths(entries: seq<BackupEntry>, others: seq<BackupEntry>, path: string)
    requires forall e | e in others :: !EqualsCI(e.metadata.path, Some(path))
    ensures TagFor(entries + others, path) == TagFor(entries, path)
  {
    var all := entries + others;
    forall j | |entries| <= j < |all|
      ensures !EqualsCI(all[j].metadata.path, Some(path))
    {
      assert all[j] == others[j - |entries|];
      assert others[j - |entries|] in others;
    }
    if HasPath(all, path) {
      var i :| 0 <= i < |all| && EqualsCI(all[i].metadata.path, Some(path));
      assert entries[i] == all[i];
    }
  }

  // ------------------------------------------------------ uploads

  /** What the app does on its Glacier interface and its database, in order. */
  datatype Effect = Initiate | UploadPart(part: seq<bv8>) | Complete | AddEntry(entry: BackupEntry)

  /** The upload for one chunk: none when the chunk is empty. */
  function UploadOf(chunk: seq<bv8>): (r: seq<Effect>)
    ensures |r| <= 1 && (r != [] ==> r[0] == UploadPart(chunk))
    ensures r == [] <==> chunk == []
  {
    if chunk == [] then [] else [UploadPart(chunk)]
  }

  /** The parts uploaded for the chunks the splitter hands over. */
  function Uploads(chunks: seq<seq<bv8>>): (r: seq<Effect>)
    ensures |r| <= |chunks|
  {
    if chunks == [] then [] else Uploads(Init(chunks)) + UploadOf(Last(chunks))
  }

  /** Every upload is a part holding one of the chunks, never an empty one. */
  lemma {:induction false} UploadsFrom(chunks: seq<seq<bv8>>)
    ensures forall c | c in Uploads(chunks) :: c.UploadPart? && c.part != [] && c.part in chunks
  {
    if chunks != [] {
      UploadsFrom(Init(chunks));
      assert chunks == Init(chunks) + [Last(chunks)];
    }
  }

  /** The bytes uploaded by a sequence of effects, in order. */
  function Uploaded(effects: seq<Effect>): seq<bv8> {
    if effects == [] then []
    else Uploaded(Init(effects)) + (if Last(effects).UploadPart? then Last(effects).part else [])
  }

  lemma {:induction false} UploadsSnoc(chunks: seq<seq<bv8>>, c: seq<bv8>)
    ensures Uploads(chunks + [c]) == Uploads(chunks) + UploadOf(c)
  {
    assert Init(chunks + [c]) == chunks;
  }

  /** One more chunk through `ProcessData`. */
  lemma {:induction false} UploadsStep(e0: seq<Effect>, chunks: seq<seq<bv8>>, i: nat)
    requires i < |chunks|
    ensures (e0 + Uploads(chunks[..i])) + UploadOf(chunks[i]) == e0 + Uploads(chunks[..i + 1])
  {
    var front := chunks[..i];
    assert chunks[..i + 1] == front + [chunks[i]];
    UploadsSnoc(front, chunks[i]);
    var a, b := Uploads(front), UploadOf(chunks[i]);
    assert Uploads(chunks[..i + 1]) == a + b;
    assert (e0 + a) + b == e0 + (a + b);
  }

  lemma {:induction false} UploadedSnoc(effects: seq<Effect>, e: Effect)
    ensures Uploaded(effects + [e]) == Uploaded(effects) + (if e.UploadPart? then e.part else [])
  {
    assert Init(effects + [e]) == effects;
  }

  /** The uploaded parts join to the chunks joined: skipping empty chunks
      loses no byte. */
  lemma {:induction false} UploadsReassemble(chunks: seq<seq<bv8>>)
    ensures Uploaded(Uploads(chunks)) == SS.Flatten(chunks)
  {
    if chunks != [] {
      var init := Init(chunks);
      var c := Last(chunks);
      assert chunks == init + [c];
      UploadsReassemble(init);
      UploadsSnoc(init, c);
      SS.FlattenSnoc(init, c);
      if c != [] {
        UploadedSnoc(Uploads(init), UploadPart(c));
      } else {
        assert Uploads(init) + UploadOf(c) == Uploads(init);
        assert SS.Flatten(init) + c == SS.Flatten(init);
      }
    }
  }

  /** Every chunk is uploaded except the one empty chunk of an empty input. */
  lemma {:induction false} UploadCount(data: seq<bv8>, size: int)
    requires size > 0
    ensures |Uploads(SS.Chunks(data, size))| == if data == [] then 0 else |SS.Chunks(data, size)|
  {
    var cs := SS.Chunks(data, size);
    SS.ChunksJoin(data, size);
    if data == [] {
      assert cs == [[]];
      assert Init(cs) == [];
    } else {
      assert Last(cs) != [] by {
        if |cs| == 1 {
          assert SS.Flatten(cs) == SS.Flatten([]) + cs[0];
        }
      }
      FullChunksUploaded(Init(cs), size);
    }
  }

  lemma {:induction false} FullChunksUploaded(cs: seq<seq<bv8>>, size: int)
    requires size > 0 && forall i | 0 <= i < |cs| :: |cs[i]| == size
    ensures |Uploads(cs)| == |cs|
  {
    if cs != [] {
      FullChunksUploaded(Init(cs), size);
      assert |Last(cs)| == size;
    }
  }

  /** What a backup with upload parts `parts` does, after the initiation:
      the parts in order, then the completion, and the database entry is
      recorded only after it. */
  function Session(parts: seq<Effect>, entry: BackupEntry): (r: seq<Effect>)
    ensures |r| == |parts| + 2 && r[|parts|] == Complete && Last(r) == AddEntry(entry)
  {
    parts + [Complete, AddEntry(entry)]
  }

  lemma {:induction false} SessionAfter(started: seq<Effect>, parts: seq<Effect>, entry: BackupEntry)
    ensures started + parts + [Complete, AddEntry(entry)] == started + Session(parts, entry)
  {
  }

  /** The parts of a backup of `stream`: the bytes the splitter takes,
      cut into chunks of `chunkSize`, empty ones left out. */
  function BackupParts(stream: seq<seq<bv8>>, chunkSize: int): (r: seq<Effect>)
    requires chunkSize > 0
    ensures forall c | c in r :: c.UploadPart? && 0 < |c.part| <= chunkSize
  {
    var chunks := SS.Chunks(SS.Received(stream), chunkSize);
    SS.ChunksJoin(SS.Received(stream), chunkSize);
    ChunksFit(chunks, chunkSize);
    UploadsFrom(chunks);
    Uploads(chunks)
  }

  lemma {:induction false} ChunksFit(cs: seq<seq<bv8>>, size: int)
    requires size > 0 && SS.Chunked(cs, size)
    ensures forall c | c in cs :: |c| <= size
  {
    forall c | c in cs ensures |c| <= size {
      var i :| 0 <= i < |cs| && cs[i] == c;
      if i < |cs| - 1 {
        assert |cs[i]| == size;
      } else {
        assert c == SS.Last(cs);
      }
    }
  }

  /** The parts of a backup join to exactly the bytes the stream yielded. */
  lemma {:induction false} BackupReassembles(stream: seq<seq<bv8>>, chunkSize: int)
    requires chunkSize > 0
    ensures Uploaded(BackupParts(stream, chunkSize)) == SS.Received(stream)
    ensures |BackupParts(stream, chunkSize)| == if SS.Received(stream) == [] then 0 else |SS.Chunks(SS.Received(stream), chunkSize)|
  {
    UploadsReassemble(SS.Chunks(SS.Received(stream), chunkSize));
    SS.ChunksJoin(SS.Received(stream), chunkSize);
    UploadCount(SS.Received(stream), chunkSize);
  }

  /** A stream that yields "ABCDEFG" and then ends is uploaded as three
      parts with chunk size 3. */
  lemma {:induction false} ThreeParts()
    ensures BackupParts([[65, 66, 67, 68, 69, 70, 71], []], 3)
            == [UploadPart([65, 66, 67]), UploadPart([68, 69, 70]), UploadPart([71])]
  {
    ReceivedExample();
    SS.ChunksExample();
    UploadsExample();
  }

  /** The splitter takes the first read and stops at the empty one. */
  lemma {:induction false} ReceivedExample()
    ensures SS.Received([[65, 66, 67, 68, 69, 70, 71], []]) == [65, 66, 67, 68, 69, 70, 71]
  {
    var stream: seq<seq<bv8>> := [[65, 66, 67, 68, 69, 70, 71], []];
    var input: seq<bv8> := [65, 66, 67, 68, 69, 70, 71];
    assert SS.StopAt(stream[1..]) == 0;
    assert SS.StopAt(stream) == 1;
    assert stream[..1] == [] + [input];
    SS.FlattenSnoc([], input);
  }

  lemma {:induction false} UploadsExample()
    ensures Uploads([[65, 66, 67], [68, 69, 70], [71]])
            == [UploadPart([65, 66, 67]), UploadPart([68, 69, 70]), UploadPart([71])]
  {
    var a: seq<bv8> := [65, 66, 67];
    var b: seq<bv8> := [68, 69, 70];
    var c: seq<bv8> := [71];
    UploadsSnoc([], a);
    UploadsSnoc([a], b);
    assert [a] + [b] == [a, b];
    UploadsSnoc([a, b], c);
    assert [a, b] + [c] == [a, b, c];
  }

  lemma {:induction false} ThreeSession(entry: BackupEntry)
    ensures [] + [Initiate] + Session(BackupParts([[65, 66, 67, 68, 69, 70, 71], []], 3), entry)
            == [Initiate, UploadPart([65, 66, 67]), UploadPart([68, 69, 70]), UploadPart([71]), Complete, AddEntry(entry)]
  {
    var parts := [UploadPart([65, 66, 67]), UploadPart([68, 69, 70]), UploadPart([71])];
    ThreeParts();
    StartedSession(BackupParts([[65, 66, 67, 68, 69, 70, 71], []], 3), parts, entry);
    Framed(Initiate, parts[0], parts[1], parts[2], Complete, AddEntry(entry));
  }

  lemma {:induction false} Framed(x: Effect, a: Effect, b: Effect, c: Effect, y: Effect, z: Effect)
    ensures [x] + [a, b, c] + [y, z] == [x, a, b, c, y, z]
  {
  }

  lemma {:induction false} StartedSession(parts: seq<Effect>, expected: seq<Effect>, entry: BackupEntry)
    requires parts == expected
    ensures [] + [Initiate] + Session(parts, entry) == [Initiate] + expected + [Complete, AddEntry(entry)]
  {
  }

  // ------------------------------------------------------ the app

  /** Why `PerformBackup` throws. */
  datatype Outcome = Done | UploadIdMissing

  class MultipartBackupApp {
    const chunkSize: int
    const path: string
    /** The calls on the Glacier interface and the database, in order. */
    var effects: seq<Effect>
    /** `database.BackupEntries`. */
    var entries: seq<BackupEntry>

    /** The constructor runs `ValidateOptions`, so an app exists only for
        valid options. */
    constructor (chunkSize: int, path: Option<string>, entries: seq<BackupEntry>)
      requires ValidateOptions(chunkSize, path).None?
      ensures this.chunkSize == chunkSize && Some(this.path) == path
      ensures this.entries == entries && effects == []
    {
      this.chunkSize := chunkSize;
      this.path := path.value;
      this.entries := entries;
      effects := [];
    }

    /** `PerformBackup(stream)`: `uploadId` and `archiveId` are what the
        Glacier interface answers to the initiation and the completion,
        and `now` is the clock. */
    method PerformBackup(stream: seq<seq<bv8>>, uploadId: Option<string>, archiveId: string, now: nat) returns (r: Outcome)
      requires chunkSize > 0
      requires forall read | read in stream :: |read| <= SS.ReadSize
      modifies this
      ensures IsEmpty(uploadId) ==> r == UploadIdMissing && effects == old(effects) + [Initiate] && entries == old(entries)
      ensures !IsEmpty(uploadId) ==> r == Done && Backed(old(effects), old(entries), effects, entries, BackupParts(stream, chunkSize), archiveId, now)
    {
      effects := effects + [Initiate];
      if IsEmpty(uploadId) {
        r := UploadIdMissing;
      } else {
        ghost var started := effects;
        Upload(stream);
        SaveEntry(archiveId, now);
        SessionAfter(started, BackupParts(stream, chunkSize), NewEntry(old(entries), archiveId, path, now));
        r := Done;
      }
    }

    /** After the initiation, the parts are uploaded, the upload is
        completed and one entry is added to the database. */
    ghost predicate Backed(effects0: seq<Effect>, entries0: seq<BackupEntry>, effects1: seq<Effect>, entries1: seq<BackupEntry>,
                           parts: seq<Effect>, archiveId: string, now: nat)
    {
      var entry := NewEntry(entries0, archiveId, path, now);
      effects1 == effects0 + [Initiate] + Session(parts, entry) && entries1 == entries0 + [entry]
    }

    /** The splitter run: each chunk goes to `ProcessData`. */
    method Upload(stream: seq<seq<bv8>>)
      requires chunkSize > 0
      requires forall read | read in stream :: |read| <= SS.ReadSize
      modifies this
      ensures effects == old(effects) + BackupParts(stream, chunkSize) && entries == old(entries)
    {
      var splitter := new SS.StreamSplitter(chunkSize);
      var calls := splitter.Run(stream);
      UploadAll(calls);
    }

    /** The completion and the new database entry. */
    method SaveEntry(archiveId: string, now: nat)
      modifies this
      ensures var entry := NewEntry(old(entries), archiveId, path, now);
              effects == old(effects) + [Complete, AddEntry(entry)] && entries == old(entries) + [entry]
    {
      var entry := NewEntry(entries, archiveId, path, now);
      effects := effects + [Complete, AddEntry(entry)];
      entries := entries + [entry];
    }

    /** The callback of the splitter, for each chunk it hands over. */
    method UploadAll(calls: seq<SS.Call>)
      modifies this
      ensures effects == old(effects) + Uploads(SS.Datas(calls)) && entries == old(entries)
    {
      var chunks := SS.Datas(calls);
      var i := 0;
      while i < |chunks|
        invariant 0 <= i <= |chunks| && chunks == SS.Datas(calls)
        invariant effects == old(effects) + Uploads(chunks[..i]) && entries == old(entries)
      {
        UploadsStep(old(effects), chunks, i);
        ProcessData(chunks[i], calls[i].index);
        i := i + 1;
      }
      assert chunks[..i] == chunks;
    }

    /** `ProcessData(buffer, fileIndex)`: an empty chunk is not uploaded. */
    method ProcessData(buffer: seq<bv8>, fileIndex: int)
      modifies this
      ensures effects == old(effects) + UploadOf(buffer) && entries == old(entries)
    {
      if |buffer| > 0 {
        effects := effects + [UploadPart(buffer)];
      }
    }
  }

  /** The first backup of "path/to/file" into an empty database, "ABCDEFG"
      in chunks of 3: three parts holding the input, the completion, then
      one entry named "file" with the archive id, the path and the
      base-archive tag. */
  method FirstBackup() returns (effects: seq<Effect>, entries: seq<BackupEntry>)
    ensures |entries| == 1
    ensures effects == [Initiate, UploadPart([65, 66, 67]), UploadPart([68, 69, 70]), UploadPart([71]), Complete, AddEntry(entries[0])]
    ensures entries[0].archiveId == "ID" && entries[0].metadata.name == Some("file")
    ensures entries[0].metadata.path == Some("path/to/file") && entries[0].metadata.tags == [BaseArchiveTag]
  {
    var app := new MultipartBackupApp(3, Some("path/to/file"), []);
    var stream: seq<seq<bv8>> := [[65, 66, 67, 68, 69, 70, 71], []];
    assert !IsEmpty(Some("ID"));
    var r := app.PerformBackup(stream, Some("ID"), "ID", 0);
    ghost var entry := NewEntry([], "ID", "path/to/file", 0);
    assert app.entries == [entry];
    ThreeSession(entry);
    FromPathExample(0);
    effects := app.effects;
    entries := app.entries;
  }
}
