/*
  StreamSplitter: reads a stream into a ByteBuffer and hands it on in
  chunks of `chunkSize` bytes, numbering the chunks with `fileIndex`. The
  stream is the sequence of what its successive `Read` calls return, and
  the callback calls are returned in order.
*/
module StreamSplitters {
  import opened ByteBuffers

  /** The size of the array each `Read` of the stream fills. */
  const ReadSize: int := 16 * 1024

  /** The size a `ByteBuffer` starts with. */
  const BufferCapacity: int := 1024 * 1024

  function Init<T>(s: seq<T>): seq<T>
    requires s != []
  {
    s[..|s| - 1]
  }

  function Last<T>(s: seq<T>): T
    requires s != []
  {
    s[|s| - 1]
  }

  function Flatten(cs: seq<seq<bv8>>): seq<bv8> {
    if cs == [] then [] else Flatten(Init(cs)) + Last(cs)
  }

  lemma {:induction false} FlattenSnoc(cs: seq<seq<bv8>>, x: seq<bv8>)
    ensures Flatten(cs + [x]) == Flatten(cs) + x
  {
    assert Init(cs + [x]) == cs;
  }

  lemma {:induction false} FlattenCons(x: seq<bv8>, cs: seq<seq<bv8>>)
    ensures Flatten([x] + cs) == x + Flatten(cs)
  {
    if cs == [] {
      assert [x] + cs == [x];
      assert Init([x]) == [];
    } else {
      FlattenCons(x, Init(cs));
      assert [x] + cs == ([x] + Init(cs)) + [Last(cs)];
      FlattenSnoc([x] + Init(cs), Last(cs));
    }
  }

  lemma {:induction false} FlattenAppend(a: seq<seq<bv8>>, b: seq<seq<bv8>>)
    ensures Flatten(a + b) == Flatten(a) + Flatten(b)
  {
    if b == [] {
      assert a + b == a;
    } else {
      FlattenAppend(a, Init(b));
      assert a + b == (a + Init(b)) + [Last(b)];
      FlattenSnoc(a + Init(b), Last(b));
    }
  }

  /** The chunks of `data`: full chunks of `size`, then one of 0..size
      bytes, which is empty only when it is the only one. */
  function Chunks(data: seq<bv8>, size: int): (r: seq<seq<bv8>>)
    requires size > 0
    ensures r != [] && forall c | c in r :: |c| <= size
    ensures r[0] == data[..if |data| <= size then |data| else size]
    decreases |data|
  {
    if |data| <= size then [data] else [data[..size]] + Chunks(data[size..], size)
  }

  ghost predicate Chunked(cs: seq<seq<bv8>>, size: int) {
    cs != [] &&
    (forall i | 0 <= i < |cs| - 1 :: |cs[i]| == size) &&
    |Last(cs)| <= size &&
    (|cs| > 1 ==> Last(cs) != [])
  }

  /** Joining the chunks gives the data back, and they have the chunk shape. */
  lemma {:induction false} ChunksJoin(data: seq<bv8>, size: int)
    requires size > 0
    ensures Flatten(Chunks(data, size)) == data && Chunked(Chunks(data, size), size)
    decreases |data|
  {
    if |data| <= size {
      assert Flatten([data]) == Flatten([]) + data;
    } else {
      var rest := Chunks(data[size..], size);
      ChunksJoin(data[size..], size);
      FlattenCons(data[..size], rest);
      SplitAt(data, size);
      assert Last([data[..size]] + rest) == Last(rest);
      assert |rest| > 1 || rest == [data[size..]];
    }
  }

  /** The chunk shape and the joined data determine the chunks. */
  lemma {:induction false} ChunkedUnique(cs: seq<seq<bv8>>, size: int)
    requires size > 0 && Chunked(cs, size)
    ensures cs == Chunks(Flatten(cs), size)
    decreases |cs|
  {
    if |cs| == 1 {
      assert Init(cs) == [];
      assert Flatten(cs) == cs[0];
    } else {
      var rest := cs[1..];
      assert cs == [cs[0]] + rest;
      FlattenCons(cs[0], rest);
      assert Chunked(rest, size) by {
        assert Last(rest) == Last(cs);
        assert forall i | 0 <= i < |rest| - 1 :: rest[i] == cs[i + 1];
      }
      ChunkedUnique(rest, size);
      var tail := Flatten(rest);
      assert tail != [] by {
        if |rest| == 1 {
          assert Flatten(rest) == Flatten([]) + rest[0];
        } else {
          assert Flatten(rest) == Flatten(Init(rest)) + Last(rest);
        }
      }
      var d := cs[0] + tail;
      assert d[..size] == cs[0] && d[size..] == tail;
    }
  }

  /** The number of chunks is `max(1, ceil(n / size))`: one for no data,
      otherwise the `k` with `(k - 1) * size < n <= k * size`. */
  lemma {:induction false} ChunkCount(data: seq<bv8>, size: int)
    requires size > 0
    ensures |data| == 0 ==> |Chunks(data, size)| == 1
    ensures |data| > 0 ==> (|Chunks(data, size)| - 1) * size < |data| <= |Chunks(data, size)| * size
    decreases |data|
  {
    if |data| > size {
      ChunkCount(data[size..], size);
      var k := |Chunks(data[size..], size)|;
      assert |Chunks(data, size)| == k + 1;
      CountStep(|data|, size, k);
    } else {
      assert |Chunks(data, size)| == 1;
    }
  }

  lemma {:induction false} CountStep(n: int, size: int, k: int)
    requires (k - 1) * size < n - size <= k * size
    ensures k * size < n <= (k + 1) * size
  {
    assert (k - 1) * size == k * size - size;
    assert (k + 1) * size == k * size + size;
  }

  /** "ABCDEFG" in chunks of 3 is "ABC", "DEF", "G". */
  lemma {:induction false} ChunksExample()
    ensures Chunks([65, 66, 67, 68, 69, 70, 71], 3) == [[65, 66, 67], [68, 69, 70], [71]]
  {
    var d: seq<bv8> := [65, 66, 67, 68, 69, 70, 71];
    var e: seq<bv8> := [68, 69, 70, 71];
    assert d[..3] == [65, 66, 67] && d[3..] == e;
    assert e[..3] == [68, 69, 70] && e[3..] == [71];
    assert Chunks([71], 3) == [[71]];
    assert Chunks(e, 3) == [[68, 69, 70]] + [[71]];
  }

  /** How many reads the loop consumes: up to the first that returns nothing. */
  function StopAt(stream: seq<seq<bv8>>): (r: nat)
    ensures r <= |stream|
    ensures forall j | 0 <= j < r :: stream[j] != []
    ensures r < |stream| ==> stream[r] == []
  {
    if stream == [] || stream[0] == [] then 0 else 1 + StopAt(stream[1..])
  }

  /** The bytes the splitter takes from the stream. */
  function Received(stream: seq<seq<bv8>>): seq<bv8> {
    Flatten(stream[..StopAt(stream)])
  }

  /** One call of the callback. */
  datatype Call = Call(data: seq<bv8>, index: int)

  /** The data of each call. */
  function Datas(calls: seq<Call>): seq<seq<bv8>> {
    seq(|calls|, i requires 0 <= i < |calls| => calls[i].data)
  }

  /** Calls of full chunks numbered from `start`. */
  ghost predicate FullChunks(calls: seq<Call>, start: int, size: int) {
    forall i | 0 <= i < |calls| :: |calls[i].data| == size && calls[i].index == start + i
  }

  ghost predicate Numbered(calls: seq<Call>, start: int) {
    forall i | 0 <= i < |calls| :: calls[i].index == start + i
  }

  lemma {:induction false} Regroup(done: seq<bv8>, before: seq<bv8>, r: seq<bv8>, sent: seq<bv8>, after: seq<bv8>, prefix: seq<bv8>)
    requires done + before == prefix && sent + after == before + r
    ensures (done + sent) + after == prefix + r
  {
    calc {
      (done + sent) + after;
      done + (sent + after);
      done + (before + r);
      (done + before) + r;
    }
  }

  lemma {:induction false} SplitAt(s: seq<bv8>, n: int)
    requires 0 <= n <= |s|
    ensures s == s[..n] + s[n..]
  {
  }

  /** The calls of one inner loop carry on the numbering and the data. */
  lemma {:induction false} Sent(calls: seq<Call>, sent: seq<Call>, start: int, size: int)
    requires FullChunks(calls, start, size) && FullChunks(sent, start + |calls|, size)
    ensures Flatten(Datas(calls + sent)) == Flatten(Datas(calls)) + Flatten(Datas(sent))
    ensures FullChunks(calls + sent, start, size)
  {
    assert Datas(calls + sent) == Datas(calls) + Datas(sent);
    FlattenAppend(Datas(calls), Datas(sent));
    forall i | 0 <= i < |calls + sent|
      ensures |(calls + sent)[i].data| == size && (calls + sent)[i].index == start + i
    {
      if i >= |calls| {
        assert (calls + sent)[i] == sent[i - |calls|];
      }
    }
  }

  /** The last call completes the chunks of everything received. */
  lemma {:induction false} Finish(calls: seq<Call>, last: seq<bv8>, total: seq<bv8>, start: int, size: int)
    requires size > 0 && |last| <= size && (calls != [] ==> last != [])
    requires FullChunks(calls, start, size)
    requires Flatten(Datas(calls)) + last == total
    ensures Datas(calls + [Call(last, start + |calls|)]) == Chunks(total, size)
    ensures Numbered(calls + [Call(last, start + |calls|)], start)
  {
    var cs := Datas(calls + [Call(last, start + |calls|)]);
    assert cs == Datas(calls) + [last];
    FlattenSnoc(Datas(calls), last);
    ChunkedUnique(cs, size);
  }

  /** One chunk taken from the front of what is held. */
  lemma {:induction false} EmitStep(sent: seq<Call>, call: Call, held: seq<bv8>, rest: seq<bv8>, orig: seq<bv8>, start: int, size: int)
    requires 0 <= size <= |held| && call.data == held[..size] && rest == held[size..]
    requires call.index == start + |sent|
    requires Flatten(Datas(sent)) + held == orig && FullChunks(sent, start, size)
    ensures Flatten(Datas(sent + [call])) + rest == orig
    ensures FullChunks(sent + [call], start, size)
  {
    SplitAt(held, size);
    assert Flatten(Datas([call])) == call.data by {
      FlattenSnoc([], call.data);
      assert Datas([call]) == [] + [call.data];
    }
    Sent(sent, [call], start, size);
    Regroup(Flatten(Datas(sent)), held, [], call.data, rest, orig);
    assert orig + [] == orig;
  }

  /** One read of the stream in the read loop. */
  lemma {:induction false} CollectStep(stream: seq<seq<bv8>>, k: nat, calls: seq<Call>, sent: seq<Call>,
                                       before: seq<bv8>, after: seq<bv8>, start: int, size: int)
    requires k < |stream|
    requires Flatten(Datas(calls)) + before == Flatten(stream[..k])
    requires Flatten(Datas(sent)) + after == before + stream[k]
    requires FullChunks(calls, start, size) && FullChunks(sent, start + |calls|, size)
    ensures Flatten(Datas(calls + sent)) + after == Flatten(stream[..k + 1])
    ensures FullChunks(calls + sent, start, size)
  {
    Sent(calls, sent, start, size);
    Regroup(Flatten(Datas(calls)), before, stream[k], Flatten(Datas(sent)), after, Flatten(stream[..k]));
    FlattenSnoc(stream[..k], stream[k]);
    assert stream[..k + 1] == stream[..k] + [stream[k]];
  }

  class StreamSplitter {
    const chunkSize: int
    var fileIndex: int

    constructor (chunkSize: int)
      requires chunkSize > 0
      ensures this.chunkSize == chunkSize && fileIndex == 0
    {
      this.chunkSize := chunkSize;
      fileIndex := 0;
    }

    /** `Run(stream)`: the callback receives the chunks of what the
        stream yields, numbered on from `fileIndex`. */
    method Run(stream: seq<seq<bv8>>) returns (calls: seq<Call>)
      requires chunkSize > 0
      requires forall r | r in stream :: |r| <= ReadSize
      modifies this
      ensures fileIndex == old(fileIndex) + |calls|
      ensures Datas(calls) == Chunks(Received(stream), chunkSize)
      ensures forall i | 0 <= i < |calls| :: calls[i].index == old(fileIndex) + i
    {
      var data := new ByteBuffer(BufferCapacity);
      var buffer := new bv8[ReadSize];
      var k;
      calls, k := Collect(data, buffer, stream);
      ghost var held := data.Contents();
      var _, last := data.Read(chunkSize);
      assert last[..] == held;
      ghost var start := old(fileIndex);
      var final := Call(last[..], fileIndex);
      assert final == Call(last[..], start + |calls|);
      Finish(calls, last[..], Received(stream), start, chunkSize);
      calls := calls + [final];
      fileIndex := fileIndex + 1;
      assert Numbered(calls, start);
    }

    /** The read loop: what the stream yields goes into `data`, and full
        chunks go out as they become available. */
    method Collect(data: ByteBuffer, buffer: array<bv8>, stream: seq<seq<bv8>>) returns (calls: seq<Call>, k: nat)
      requires chunkSize > 0 && forall r | r in stream :: |r| <= ReadSize
      requires data.Valid() && data.length == 0 && data.bytes.Length > 0
      requires data.bytes != buffer && buffer.Length == ReadSize
      modifies this, data, data.bytes, buffer
      ensures data.Valid() && k == StopAt(stream) && data.bytes.Length > 0
      ensures data.bytes == old(data.bytes) || fresh(data.bytes)
      ensures Flatten(Datas(calls)) + data.Contents() == Received(stream)
      ensures FullChunks(calls, old(fileIndex), chunkSize)
      ensures calls != [] ==> data.length > 0
      ensures data.length <= chunkSize
      ensures fileIndex == old(fileIndex) + |calls|
    {
      calls := [];
      k := 0;
      while k < |stream| && stream[k] != []
        invariant k <= StopAt(stream)
        invariant data.bytes == old(data.bytes) || fresh(data.bytes)
        invariant data.Valid() && data.bytes.Length > 0 && data.bytes != buffer
        invariant Flatten(Datas(calls)) + data.Contents() == Flatten(stream[..k])
        invariant FullChunks(calls, old(fileIndex), chunkSize)
        invariant calls != [] ==> data.length > 0
        invariant data.length <= chunkSize
        invariant fileIndex == old(fileIndex) + |calls|
      {
        var r := stream[k];
        assert r in stream;
        ghost var before := data.Contents();
        var sent := Feed(data, buffer, r);
        CollectStep(stream, k, calls, sent, before, data.Contents(), old(fileIndex), chunkSize);
        calls := calls + sent;
        k := k + 1;
      }
      assert stream[..StopAt(stream)] == stream[..k];
    }

    /** One turn of the read loop. */
    method Feed(data: ByteBuffer, buffer: array<bv8>, r: seq<bv8>) returns (sent: seq<Call>)
      requires chunkSize > 0 && r != [] && |r| <= buffer.Length
      requires data.Valid() && data.bytes.Length > 0 && data.bytes != buffer
      modifies this, data, data.bytes, buffer
      ensures data.Valid() && data.bytes.Length > 0 && data.bytes != buffer
      ensures data.bytes == old(data.bytes) || fresh(data.bytes)
      ensures Flatten(Datas(sent)) + data.Contents() == old(data.Contents()) + r
      ensures FullChunks(sent, old(fileIndex), chunkSize) && fileIndex == old(fileIndex) + |sent|
      ensures 0 < data.length <= chunkSize
    {
      Take(data, buffer, r);
      sent := Emit(data);
    }

    /** One read of the stream lands in `buffer` and is written to `data`. */
    method Take(data: ByteBuffer, buffer: array<bv8>, r: seq<bv8>)
      requires data.Valid() && data.bytes.Length > 0 && data.bytes != buffer && |r| <= buffer.Length
      modifies data, data.bytes, buffer
      ensures data.Valid() && data.bytes.Length > 0 && data.bytes != buffer
      ensures data.bytes == old(data.bytes) || fresh(data.bytes)
      ensures data.Contents() == old(data.Contents()) + r
    {
      forall i | 0 <= i < |r| {
        buffer[i] := r[i];
      }
      assert buffer[..|r|] == r;
      data.Write(buffer, |r|);
    }

    /** The inner loop: full chunks go out while more than one chunk's
        worth is held. */
    method Emit(data: ByteBuffer) returns (sent: seq<Call>)
      requires chunkSize > 0 && data.Valid()
      modifies this, data, data.bytes
      ensures data.Valid() && data.bytes == old(data.bytes)
      ensures Flatten(Datas(sent)) + data.Contents() == old(data.Contents())
      ensures data.length <= chunkSize && (sent != [] ==> data.length > 0)
      ensures FullChunks(sent, old(fileIndex), chunkSize)
      ensures fileIndex == old(fileIndex) + |sent|
    {
      sent := [];
      while data.length > chunkSize
        invariant data.Valid() && data.bytes == old(data.bytes)
        invariant Flatten(Datas(sent)) + data.Contents() == old(data.Contents())
        invariant sent != [] ==> data.length > 0
        invariant FullChunks(sent, old(fileIndex), chunkSize)
        invariant fileIndex == old(fileIndex) + |sent|
        decreases data.length
      {
        ghost var held := data.Contents();
        var _, chunk := data.Read(chunkSize);
        assert Min(|held|, chunkSize) == chunkSize;
        var call := Call(chunk[..], fileIndex);
        EmitStep(sent, call, held, data.Contents(), old(data.Contents()), old(fileIndex), chunkSize);
        sent := sent + [call];
        fileIndex := fileIndex + 1;
      }
    }
  }
}
