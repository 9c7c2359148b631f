/**
  The file as the streaming branch sees it (CheckSumIt/Hasher.cs:46-55): an
  input stream over the file's bytes, and one buffer of fixed capacity that
  every read refills.
 */
module Streams {
  import opened Hex

  /** A byte buffer: `Capacity` bytes of storage, of which the first `Length` hold data. */
  class Buffer {
    const Capacity: nat
    const data: array<byte>
    var Length: nat

    ghost predicate Valid()
      reads this
    {
      data.Length == Capacity && Length <= Capacity
    }

    /** The bytes the last read left in the buffer. */
    function Contents(): seq<byte>
      reads this, data
      requires Valid()
    {
      data[..Length]
    }

    constructor (capacity: nat)
      ensures Valid() && Capacity == capacity && Length == 0 && fresh(data)
    {
      Capacity := capacity;
      data := new byte[capacity];
      Length := 0;
    }
  }

  /** A sequential reader over `content`; `position` bytes have been consumed. */
  class InputStream {
    const content: seq<byte>
    var position: nat

    ghost predicate Valid()
      reads this
    {
      position <= |content|
    }

    constructor Open(content: seq<byte>)
      ensures Valid() && this.content == content && position == 0
    {
      this.content := content;
      position := 0;
    }

    /**
      Reads the next bytes into `buffer`, replacing what it held. A read
      delivers between one and `count` bytes while any remain, and none at
      the end of the stream; how many it delivers is up to the stream.
     */
    method ReadAsync(buffer: Buffer, count: nat)
      requires Valid() && buffer.Valid() && count <= buffer.Capacity
      modifies this, buffer, buffer.data
      ensures Valid() && buffer.Valid()
      ensures old(position) <= position && buffer.Length <= count
      ensures buffer.Contents() == content[old(position)..position]
      ensures buffer.Length == 0 <==> old(position) == |content| || count == 0
    {
      var n: nat := 0;
      if position < |content| && count > 0 {
        n :| 1 <= n <= count && position + n <= |content|;
      }
      forall i | 0 <= i < n {
        buffer.data[i] := content[position + i];
      }
      buffer.Length := n;
      position := position + n;
    }
  }
}
