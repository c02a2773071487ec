/*
  ByteBuffer: a first-in first-out queue of bytes kept at the front of an
  array that doubles in size when a write does not fit.
*/
module ByteBuffers {

  function Min(a: int, b: int): int {
    if a <= b then a else b
  }

  /** How many bytes `Read(size)` takes from a buffer holding `length`. */
  function ReadCount(length: int, size: int): (r: int)
    ensures 0 <= length && 0 <= size ==> 0 <= r <= length && r <= size && (r < length ==> r == size)
  {
    if length == 0 then 0 else Min(length, size)
  }

  /** The capacity the doubling loop of `Write` stops at. */
  function Grown(capacity: int, need: int): (r: int)
    requires capacity > 0
    ensures r >= need && r >= capacity
    ensures r == capacity || r < 2 * need
    decreases need - capacity
  {
    if capacity >= need then capacity else Grown(2 * capacity, need)
  }

  /** Each growth step doubles: the capacity is the old one times a power of two. */
  function Pow2(k: nat): (r: nat)
    ensures r > 0
  {
    if k == 0 then 1 else 2 * Pow2(k - 1)
  }

  lemma {:induction false} GrownDoubles(capacity: int, need: int)
    requires capacity > 0
    ensures exists k: nat :: Grown(capacity, need) == capacity * Pow2(k)
    decreases need - capacity
  {
    if capacity < need {
      GrownDoubles(2 * capacity, need);
      var k: nat :| Grown(2 * capacity, need) == 2 * capacity * Pow2(k);
      assert Grown(capacity, need) == capacity * Pow2(k + 1);
    } else {
      assert Grown(capacity, need) == capacity * Pow2(0);
    }
  }

  class ByteBuffer {
    var bytes: array<bv8>
    var length: int

    ghost predicate Valid()
      reads this
    {
      0 <= length <= bytes.Length
    }

    /** The queued bytes, oldest first. */
    function Contents(): seq<bv8>
      requires Valid()
      reads this, bytes
    {
      bytes[..length]
    }

    /** `new ByteBuffer(initialCapacity)`; a negative capacity throws. */
    constructor (initialCapacity: int)
      requires initialCapacity >= 0
      ensures Valid() && fresh(bytes)
      ensures Contents() == [] && bytes.Length == initialCapacity
    {
      bytes := new bv8[initialCapacity];
      length := 0;
    }

    /** `Write(data, size)`: appends the first `min(|data|, size)` bytes,
        doubling the array until they fit. */
    method Write(data: array<bv8>, size: int)
      requires Valid() && size >= 0 && data != bytes
      requires bytes.Length > 0 || Min(data.Length, size) == 0
      modifies this, bytes
      ensures Valid()
      ensures Contents() == old(Contents()) + old(data[..Min(data.Length, size)])
      ensures bytes.Length == if old(bytes.Length) == 0 then 0 else Grown(old(bytes.Length), old(length) + Min(data.Length, size))
      ensures bytes == old(bytes) || fresh(bytes)
    {
      var n := Min(data.Length, size);
      if bytes.Length < length + n {
        Grow(length + n);
      }
      Append(data, n);
    }

    /** The doubling loop: the contents move to an array twice as large
        until `need` bytes fit. */
    method Grow(need: int)
      requires Valid() && bytes.Length > 0
      modifies this
      ensures Valid() && length == old(length) && Contents() == old(Contents())
      ensures bytes.Length == Grown(old(bytes.Length), need)
      ensures bytes == old(bytes) || fresh(bytes)
    {
      while bytes.Length < need
        invariant Valid() && length == old(length) && bytes.Length > 0
        invariant bytes[..length] == old(Contents())
        invariant Grown(bytes.Length, need) == Grown(old(bytes.Length), need)
        invariant bytes == old(bytes) || fresh(bytes)
        decreases need - bytes.Length
      {
        var newBytes := new bv8[bytes.Length * 2];
        forall i | 0 <= i < bytes.Length {
          newBytes[i] := bytes[i];
        }
        assert newBytes[..length] == bytes[..length];
        bytes := newBytes;
      }
    }

    /** The copy loop: the first `n` bytes of `data` go after the contents. */
    method Append(data: array<bv8>, n: int)
      requires Valid() && 0 <= n <= data.Length && length + n <= bytes.Length && data != bytes
      modifies this, bytes
      ensures Valid() && bytes == old(bytes)
      ensures Contents() == old(Contents()) + old(data[..n])
    {
      var i := 0;
      while i < n
        invariant 0 <= i <= n && bytes == old(bytes) && length == old(length)
        invariant bytes[..length] == old(Contents())
        invariant bytes[length..length + i] == old(data[..n])[..i]
        invariant data[..n] == old(data[..n])
      {
        bytes[length + i] := data[i];
        assert bytes[length..length + i + 1] == bytes[length..length + i] + [data[i]];
        i := i + 1;
      }
      assert bytes[..length + n] == bytes[..length] + bytes[length..length + n];
      length := length + n;
    }

    /** `Read(size)`: removes and returns the oldest `min(Length, size)`
        bytes, shifting the rest to the front. An empty buffer returns no
        bytes whatever the size; otherwise a negative size throws
        (`new byte[negative]`), reported here as `ok == false` with the
        contents unchanged. */
    method Read(size: int) returns (ok: bool, res: array<bv8>)
      requires Valid()
      modifies this, bytes
      ensures Valid() && fresh(res) && bytes == old(bytes)
      ensures ok <==> old(length) == 0 || size >= 0
      ensures ok ==> res[..] == old(Contents())[..ReadCount(old(length), size)]
      ensures ok ==> Contents() == old(Contents())[ReadCount(old(length), size)..]
      ensures !ok ==> res.Length == 0 && Contents() == old(Contents())
    {
      if length == 0 {
        ok, res := true, new bv8[0];
        return;
      }
      if size < 0 {
        ok, res := false, new bv8[0];
        return;
      }
      ok := true;
      var n := Min(length, size);
      res := new bv8[n];
      if n > 0 {
        forall i | 0 <= i < n {
          res[i] := bytes[i];
        }
        ShiftOut(n);
      }
    }

    /** The span shift: the bytes after the first `n` move to the front. */
    method ShiftOut(n: int)
      requires Valid() && 0 <= n <= length
      modifies this, bytes
      ensures Valid() && bytes == old(bytes)
      ensures Contents() == old(Contents())[n..]
    {
      ghost var held := Contents();
      var j := 0;
      while j < length - n
        invariant 0 <= j <= length - n && length == old(length) && bytes == old(bytes)
        invariant forall t | 0 <= t < j :: bytes[t] == held[n + t]
        invariant forall t | j <= t < length :: bytes[t] == held[t]
      {
        bytes[j] := bytes[j + n];
        j := j + 1;
      }
      length := length - n;
      assert bytes[..length] == held[n..];
    }
  }

  /** Three writes and one read of everything give the bytes back in order
      ("ABC", "DEF", "G" read back as "ABCDEFG"). */
  method InputMatchesOutput() returns (r: seq<bv8>)
    ensures r == [65, 66, 67, 68, 69, 70, 71]
  {
    var buffer := new ByteBuffer(64);
    var abc := new bv8[3] [65, 66, 67];
    var def := new bv8[3] [68, 69, 70];
    var g := new bv8[1] [71];
    buffer.Write(abc, 3);
    assert buffer.Contents() == [65, 66, 67];
    buffer.Write(def, 3);
    assert buffer.Contents() == [65, 66, 67, 68, 69, 70];
    buffer.Write(g, 1);
    assert buffer.Contents() == [65, 66, 67, 68, 69, 70, 71];
    var ok, all := buffer.Read(7);
    r := all[..];
  }
}
