/** The `java.nio` pieces the library code reads with: a `ByteBuffer` (its
    bytes, position and limit) and a file channel, which is the file's content
    and the channel's position. A channel read fills the buffer's remaining
    space with as many of the file's bytes as are left. */
module Buffers {
  import opened Bytes

  /** The state of a `ByteBuffer`: its bytes, the index of the next byte to
      read or write and the index one past the last usable byte. */
  datatype BufferState = BufferState(content: seq<Byte>, position: nat, limit: nat)

  predicate WellFormed(b: BufferState)
  {
    b.position <= b.limit <= |b.content|
  }

  /** `ByteBuffer.allocate(n)`: `n` zero bytes, all usable. */
  function Allocated(n: nat): (r: BufferState)
    ensures WellFormed(r) && |r.content| == n && r.position == 0 && r.limit == n
  {
    BufferState(Zeros(n), 0, n)
  }

  /** `clear()`: position 0, limit at the capacity; the bytes stay. */
  function Cleared(b: BufferState): (r: BufferState)
    ensures WellFormed(r) && r.content == b.content && r.position == 0 && r.limit == |b.content|
  {
    b.(position := 0, limit := |b.content|)
  }

  /** `flip()`: what was written becomes what is read. */
  function Flipped(b: BufferState): (r: BufferState)
    requires WellFormed(b)
    ensures WellFormed(r) && r.content == b.content && r.position == 0 && r.limit == b.position
  {
    b.(limit := b.position, position := 0)
  }

  /** `getInt()` succeeds when four bytes remain; otherwise it throws
      `BufferUnderflowException`. */
  predicate HasInt(b: BufferState)
  {
    b.position + 4 <= b.limit <= |b.content|
  }

  /** The little-endian `int` `getInt()` returns. */
  function IntOf(b: BufferState): Int32
    requires HasInt(b)
  {
    Wrap32(ReadLe(b.content, b.position))
  }

  /** The buffer after `getInt()`. */
  function PastInt(b: BufferState): (r: BufferState)
    requires HasInt(b)
    ensures WellFormed(r) && r.content == b.content && r.limit == b.limit
  {
    b.(position := b.position + 4)
  }

  /** How many bytes a channel read at `at` puts into `b`: the buffer's
      remaining space, or fewer when the file ends first. */
  function Got(input: seq<Byte>, at: nat, b: BufferState): (n: nat)
    requires WellFormed(b)
    ensures n <= b.limit - b.position && (n > 0 ==> at + n <= |input|)
    ensures n < b.limit - b.position ==> at + n >= |input|
  {
    if at >= |input| then 0
    else if b.limit - b.position <= |input| - at then b.limit - b.position
    else |input| - at
  }

  /** What `read(b)` returns: the bytes read, or -1 when the buffer had room
      but the file had no byte left. */
  function ReadCount(input: seq<Byte>, at: nat, b: BufferState): (r: int)
    requires WellFormed(b)
    ensures r == -1 || r == Got(input, at, b)
  {
    if Got(input, at, b) == 0 && b.position < b.limit then -1 else Got(input, at, b)
  }

  /** The buffer after `read(b)`: the bytes read put at its position, which
      moves past them. */
  function Filled(input: seq<Byte>, at: nat, b: BufferState): (r: BufferState)
    requires WellFormed(b)
    ensures WellFormed(r) && |r.content| == |b.content| && r.limit == b.limit
    ensures r.position == b.position + Got(input, at, b)
    ensures r.content[..b.position] == b.content[..b.position]
    ensures Got(input, at, b) > 0 ==> r.content[b.position..r.position] == input[at..at + Got(input, at, b)]
  {
    var n := Got(input, at, b);
    if n == 0 then b
    else
      var c := b.content[..b.position] + input[at..at + n] + b.content[b.position + n..];
      assert c[..b.position] == b.content[..b.position];
      assert c[b.position..b.position + n] == input[at..at + n];
      b.(content := c, position := b.position + n)
  }

  /** A `java.nio.ByteBuffer`. */
  class ByteBuffer {
    var content: seq<Byte>
    var position: nat
    var limit: nat

    ghost predicate Valid()
      reads this
    {
      position <= limit <= |content|
    }

    function State(): (r: BufferState)
      reads this
    {
      BufferState(content, position, limit)
    }

    /** `ByteBuffer.wrap(bytes)`: everything is readable. */
    constructor Wrap(bytes: seq<Byte>)
      ensures Valid() && content == bytes && position == 0 && limit == |bytes|
    {
      content, position, limit := bytes, 0, |bytes|;
    }

    /** `ByteBuffer.allocate(n)`. */
    constructor Allocate(n: nat)
      ensures Valid() && State() == Allocated(n)
    {
      content, position, limit := Zeros(n), 0, n;
    }

    /** `get()`: the next byte; the position moves past it. */
    method Get() returns (b: Byte)
      requires Valid() && position < limit
      modifies this`position
      ensures Valid() && position == old(position) + 1
      ensures b == content[old(position)]
    {
      b := content[position];
      position := position + 1;
    }

    method Clear()
      modifies this`position, this`limit
      ensures State() == Cleared(old(State())) && Valid()
    {
      position, limit := 0, |content|;
    }

    method Flip()
      requires Valid()
      modifies this`position, this`limit
      ensures State() == Flipped(old(State())) && Valid()
    {
      position, limit := 0, position;
    }

    /** `getInt()`: `ok` is false for the `BufferUnderflowException`, which
        leaves the buffer as it was. */
    method GetInt() returns (ok: bool, v: Int32)
      requires Valid()
      modifies this`position
      ensures Valid() && ok == HasInt(old(State()))
      ensures ok ==> v == IntOf(old(State())) && State() == PastInt(old(State()))
      ensures !ok ==> State() == old(State())
    {
      if position + 4 > limit {
        return false, 0;
      }
      v := Wrap32(ReadLe(content, position));
      position := position + 4;
      ok := true;
    }
  }

  /** A `FileChannel` (or the `SeekableByteChannel` of a file) open on a file
      of content `input`, at position `at`, which may lie past the end. */
  class Channel {
    const input: seq<Byte>
    var at: nat

    constructor (input: seq<Byte>)
      ensures this.input == input && at == 0
    {
      this.input := input;
      at := 0;
    }

    /** `position(q)`: `ok` is false for the `IllegalArgumentException` of a
        negative position. */
    method Position(q: int) returns (ok: bool)
      modifies this`at
      ensures ok <==> q >= 0
      ensures at == if ok then q else old(at)
    {
      if q < 0 {
        return false;
      }
      at := q;
      return true;
    }

    /** `read(b)`: as many bytes as fit in `b` and are left in the file. */
    method Read(b: ByteBuffer) returns (count: int)
      requires b.Valid()
      modifies this`at, b`content, b`position
      ensures b.Valid() && b.State() == Filled(input, old(at), old(b.State()))
      ensures count == ReadCount(input, old(at), old(b.State())) && at == old(at) + Got(input, old(at), old(b.State()))
    {
      var n := Got(input, at, b.State());
      if n == 0 {
        return if b.position < b.limit then -1 else 0;
      }
      b.content := b.content[..b.position] + input[at..at + n] + b.content[b.position + n..];
      b.position := b.position + n;
      count := n;
      at := at + n;
    }
  }
}
