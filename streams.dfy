/** The byte streams the codec writes to and reads from: `bozo::ostream`
    appending to a growing buffer, and `bozo::istream` reading a received
    value from a cursor. */
module Streams {
  import opened Bytes
  import opened Wrappers

  class OStream {
    var buffer: seq<Byte>

    constructor ()
      ensures buffer == []
    {
      buffer := [];
    }

    /** Append raw bytes. */
    method Write(bytes: seq<Byte>)
      modifies this
      ensures buffer == old(buffer) + bytes
    {
      buffer := buffer + bytes;
    }
  }

  /** The n bytes at pos, or None when fewer than n remain. */
  function ReadAt(data: seq<Byte>, pos: nat, n: nat): (r: Option<seq<Byte>>)
    ensures r.Some? <==> pos + n <= |data|
    ensures r.Some? ==> |r.value| == n && r.value == data[pos..pos + n]
  {
    if pos + n <= |data| then Some(data[pos..pos + n]) else None
  }

  class IStream {
    const data: seq<Byte>
    var pos: nat

    ghost predicate Valid()
      reads this
    {
      pos <= |data|
    }

    constructor (data: seq<Byte>)
      ensures Valid() && this.data == data && pos == 0
    {
      this.data := data;
      pos := 0;
    }

    /** Read n bytes, advancing the cursor past them; a short stream is a
        failed read that leaves the cursor where it was. */
    method Read(n: nat) returns (r: Option<seq<Byte>>)
      requires Valid()
      modifies this
      ensures Valid()
      ensures r == ReadAt(data, old(pos), n)
      ensures pos == if r.Some? then old(pos) + n else old(pos)
    {
      if pos + n <= |data| {
        r := Some(data[pos..pos + n]);
        pos := pos + n;
      } else {
        r := None;
      }
    }
  }
}
