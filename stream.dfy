/**
 * The `InputStream` the web client serves a `pns` response through. It pulls byte chunks from a
 * channel one at a time into `buffer` and hands them out. The channel is the sequence of chunks
 * it will still yield; once it has none left it yields null.
 */
module Stream {
  import opened Wrappers

  /** The stream's state: the current chunk (null before the first fetch and after the last) and the chunks to come. */
  datatype State = State(buffer: Option<seq<bv8>>, chunks: seq<seq<bv8>>)

  /** `loadNextData`: the channel's next chunk, or null when it has none left. */
  function LoadNext(s: State): (r: State)
    ensures |r.chunks| <= |s.chunks|
    ensures s.chunks == [] <==> r.buffer.None?
  {
    if s.chunks == [] then State(None, []) else State(Some(s.chunks[0]), s.chunks[1..])
  }

  /** What `hasData` leaves behind: the first chunk fetched if none was yet. */
  function Prepared(s: State): (r: State)
    ensures r.buffer.Some? || r.chunks == []
  {
    if s.buffer.None? then LoadNext(s) else s
  }

  /** `hasData`: there is a chunk and it is not exhausted. An exhausted chunk is not replaced. */
  predicate Readable(s: State) {
    Prepared(s).buffer.Some? && Prepared(s).buffer.value != []
  }

  /** The bytes of `chunks` up to the first empty one, which the channel uses to mark the end. */
  function Deliverable(chunks: seq<seq<bv8>>): seq<bv8> {
    if chunks == [] || chunks[0] == [] then [] else chunks[0] + Deliverable(chunks[1..])
  }

  /** The bytes the stream will still hand out: none once its current chunk is exhausted. */
  function Available(s: State): seq<bv8> {
    match s.buffer
    case None => Deliverable(s.chunks)
    case Some(b) => if b == [] then [] else b + Deliverable(s.chunks)
  }

  /** Fetching the first chunk changes nothing the stream will hand out. */
  lemma PreparedAvailable(s: State)
    ensures Available(Prepared(s)) == Available(s)
  {
    if s.buffer.None? && s.chunks != [] && s.chunks[0] == [] {
      assert Deliverable(s.chunks) == [];
    }
  }

  /** `hasData` holds exactly when there are bytes to hand out. */
  lemma ReadableIff(s: State)
    ensures Readable(s) <==> Available(s) != []
  {
    PreparedAvailable(s);
  }

  /** The state after a bulk read of `count` bytes: the chunk less those bytes, refilled once it is empty. */
  function AfterBulk(s: State, count: nat): (r: State)
    requires Readable(s) && count <= |Prepared(s).buffer.value|
  {
    var p := Prepared(s);
    var rest := p.buffer.value[count..];
    if rest == [] then LoadNext(State(Some(rest), p.chunks)) else State(Some(rest), p.chunks)
  }

  /** Bulk reads hand out the bytes in channel order: none repeated, none skipped. */
  lemma BulkInOrder(s: State, count: nat)
    requires Readable(s) && count <= |Prepared(s).buffer.value|
    ensures Available(s)[..count] == Prepared(s).buffer.value[..count]
    ensures Available(AfterBulk(s, count)) == Available(s)[count..]
  {
    PreparedAvailable(s);
    var p := Prepared(s);
    var b := p.buffer.value;
    assert Available(s) == b + Deliverable(p.chunks);
    var rest := b[count..];
    if rest == [] {
      var t := State(Some(rest), p.chunks);
      if p.chunks != [] && p.chunks[0] == [] {
        assert Deliverable(p.chunks) == [];
      }
      assert Available(LoadNext(t)) == Deliverable(p.chunks);
      assert Available(s)[count..] == Deliverable(p.chunks);
    } else {
      assert Available(s)[count..] == rest + Deliverable(p.chunks);
    }
  }

  /** The state after `read()` as written: the byte is taken, and an emptied chunk is left in place. */
  function AfterByte(s: State): State
    requires Readable(s)
  {
    var p := Prepared(s);
    State(Some(p.buffer.value[1..]), p.chunks)
  }

  /** `read()` as written: taking the last byte of a chunk ends the stream, whatever chunks follow. */
  lemma ByteReadDrainsChunk(s: State)
    requires Readable(s)
    ensures Available(s)[0] == Prepared(s).buffer.value[0]
    ensures |Prepared(s).buffer.value| == 1 ==> Available(AfterByte(s)) == []
    ensures |Prepared(s).buffer.value| > 1 ==> Available(AfterByte(s)) == Available(s)[1..]
  {
    BulkInOrder(s, 1);
  }

  /** A channel of two one-byte chunks: `read()` hands out the first byte, and then reports the end. */
  lemma ByteReadLosesData()
    ensures var s := State(None, [[1], [2]]);
      Readable(s) && Available(s) == [1, 2] && Available(AfterByte(s)) == [] && AfterByte(s).chunks == [[2]]
  {
    var s := State(None, [[1], [2]]);
    assert Prepared(s) == State(Some([1]), [[2]]);
    assert Deliverable([[2]]) == [2] by {
      assert Deliverable([[2]][1..]) == [];
    }
  }

  /** The state after `read()` as intended: like a one-byte bulk read, so an emptied chunk is refilled. */
  function AfterByteRefilling(s: State): State
    requires Readable(s)
  {
    AfterBulk(s, 1)
  }

  /** With the refill, single-byte reads hand out every byte in channel order. */
  lemma ByteReadRefillingInOrder(s: State)
    requires Readable(s)
    ensures Available(AfterByteRefilling(s)) == Available(s)[1..]
  {
    BulkInOrder(s, 1);
  }

  /** How many bytes one bulk read may take when `max` are allowed: at least one unless none is allowed. */
  predicate ValidCount(count: int, max: int) {
    0 <= count <= max && (0 < max ==> 1 <= count)
  }

  class Stream {
    var buffer: Option<seq<bv8>>
    var chunks: seq<seq<bv8>>

    function Current(): State
      reads this
    {
      State(buffer, chunks)
    }

    /** A new stream has fetched nothing yet: the first chunk is fetched on the first read. */
    constructor (channel: seq<seq<bv8>>)
      ensures buffer.None? && chunks == channel
    {
      buffer := None;
      chunks := channel;
    }

    /** `loadNextData`. */
    method LoadNextData()
      modifies this
      ensures Current() == LoadNext(old(Current()))
    {
      if chunks == [] {
        buffer := None;
      } else {
        buffer := Some(chunks[0]);
        chunks := chunks[1..];
      }
    }

    /** `hasData`: fetches the first chunk if none was yet, and reports whether it has bytes left. */
    method HasData() returns (r: bool)
      modifies this
      ensures Current() == Prepared(old(Current()))
      ensures r == Readable(old(Current())) && (r <==> Available(old(Current())) != [])
    {
      ReadableIff(Current());
      if buffer.None? {
        LoadNextData();
      }
      if buffer.None? {
        return false;
      }
      if buffer.value == [] {
        return false;
      }
      return true;
    }

    /**
     * `read(bytes, off, len)`: -1 at the end of the stream; otherwise at most `len` bytes of the
     * current chunk, at least one when `len` is positive, copied to `bytes[off..]`. How many is
     * up to the buffer, which hands out only its first segment. An emptied chunk is refilled.
     */
    method Read(bytes: array<bv8>, off: int, len: int) returns (n: int)
      requires 0 <= off && 0 <= len && off + len <= bytes.Length
      modifies this, bytes
      ensures n == -1 <==> Available(old(Current())) == []
      ensures n == -1 ==> Current() == Prepared(old(Current())) && bytes[..] == old(bytes[..])
      ensures n >= 0 ==> Readable(old(Current())) && n <= len && n <= |Prepared(old(Current())).buffer.value|
      ensures n >= 0 && len > 0 ==> n > 0
      ensures n >= 0 ==> Current() == AfterBulk(old(Current()), n)
      ensures n >= 0 ==> bytes[..] == old(bytes[..off]) + Available(old(Current()))[..n] + old(bytes[off + n..])
    {
      ghost var s := Current();
      var more := HasData();
      if !more {
        return -1;
      }
      var b := buffer.value;
      var limit := if len < |b| then len else |b|;
      assert ValidCount(limit, limit);
      var taken: int :| ValidCount(taken, limit);
      assert ValidCount(taken, limit);
      assert 0 <= taken <= limit <= |b|;
      for k := 0 to taken
        modifies bytes
        invariant bytes[..] == old(bytes[..off]) + b[..k] + old(bytes[off + k..])
      {
        bytes[off + k] := b[k];
        assert b[..k + 1] == b[..k] + [b[k]];
      }
      assert Current() == Prepared(s);
      buffer := Some(b[taken..]);
      if b[taken..] == [] {
        LoadNextData();
      }
      BulkInOrder(s, taken);
      return taken;
    }

    /** `read(bytes)`: the same as `read(bytes, 0, bytes.size)`. */
    method ReadAll(bytes: array<bv8>) returns (n: int)
      modifies this, bytes
      ensures n == -1 <==> Available(old(Current())) == []
      ensures n == -1 ==> Current() == Prepared(old(Current())) && bytes[..] == old(bytes[..])
      ensures n >= 0 ==> Readable(old(Current())) && n <= bytes.Length && n <= |Prepared(old(Current())).buffer.value|
      ensures n >= 0 && bytes.Length > 0 ==> n > 0
      ensures n >= 0 ==> Current() == AfterBulk(old(Current()), n)
      ensures n >= 0 ==> bytes[..] == Available(old(Current()))[..n] + old(bytes[n..])
    {
      n := Read(bytes, 0, bytes.Length);
    }

    /**
     * `read()`: -1 at the end of the stream, else the next byte as a value in [0, 255]. As
     * written it does not refill an emptied chunk, so the stream ends with the current chunk.
     */
    method ReadByte() returns (r: int)
      modifies this
      ensures -1 <= r <= 255
      ensures r == -1 <==> Available(old(Current())) == []
      ensures r == -1 ==> Current() == Prepared(old(Current()))
      ensures r >= 0 ==> r == Available(old(Current()))[0] as int && Current() == AfterByte(old(Current()))
    {
      ghost var s := Current();
      var more := HasData();
      if !more {
        return -1;
      }
      if buffer.value != [] {
        r := buffer.value[0] as int;
        buffer := Some(buffer.value[1..]);
        ByteReadDrainsChunk(s);
      } else {
        assert false;
      }
    }

    /** `read()` with the refill the dead `else` branch was meant to give: an emptied chunk is replaced. */
    method ReadByteRefilling() returns (r: int)
      modifies this
      ensures -1 <= r <= 255
      ensures r == -1 <==> Available(old(Current())) == []
      ensures r >= 0 ==> r == Available(old(Current()))[0] as int && Current() == AfterByteRefilling(old(Current()))
      ensures r >= 0 ==> Available(Current()) == Available(old(Current()))[1..]
    {
      ghost var s := Current();
      var more := HasData();
      if !more {
        return -1;
      }
      r := buffer.value[0] as int;
      buffer := Some(buffer.value[1..]);
      if buffer.value == [] {
        LoadNextData();
      }
      BulkInOrder(s, 1);
    }

    /** `skip(n)`: the channel seeks to `n`, after which it yields `after`; the next chunk is fetched and `n` returned. */
    method Skip(n: int, after: seq<seq<bv8>>) returns (skipped: int)
      modifies this
      ensures skipped == n
      ensures Current() == LoadNext(State(buffer := old(buffer), chunks := after))
    {
      chunks := after;
      LoadNextData();
      return n;
    }
  }
}
