/**
 * `zed::net::detail::StreamBuffer`: the older stream buffer, the same index scheme as TcpBuffer
 * with `increase_write_index`/`increase_read_index` and the muduo growth rule.
 */
module ZedStreamBuffer {
  import opened Wrappers
  import T = ZedTcpBuffer

  /**
   * `expand(len)` as written: resize to write_index_ + len when writeable + prependable < len,
   * otherwise move `writeable_bytes()` bytes from the read index to the front.
   */
  function ExpandAsWritten(b: T.Indexed, len: nat): (r: T.Indexed)
    requires b.Valid()
    ensures r.Valid()
  {
    var writeable := |b.buffer| - b.write;
    if writeable + b.read < len then T.Indexed(T.Resize(b.buffer, b.write + len), b.read, b.write)
    else
      var n := writeable;
      T.Indexed(T.CopyInto(b.buffer, 0, b.buffer[b.read..b.read + n]), 0, n)
  }

  /** `increase_read_index(len)` as written; None where `readable_bytes()` asserts. */
  function IncreaseReadIndexAsWritten(b: T.Indexed, len: nat): (r: Option<T.Indexed>)
    requires b.Valid()
    ensures r.Some? ==> r.value.Valid()
  {
    if b.write <= b.read then None
    else if len < b.write - b.read then Some(T.Indexed(b.buffer, b.read + len, b.write))
    else Some(T.Indexed(b.buffer, 0, 0))
  }

  /**
   * `append(data, len)` as written: copy at the write index, then `increase_read_index(len)`.
   * None when the copy runs past the vector or the assert fires.
   */
  function AppendAsWritten(b: T.Indexed, data: seq<char>): (r: Option<T.Indexed>)
    requires b.Valid()
    ensures r.Some? ==> r.value.Valid()
  {
    var e := if |b.buffer| - b.write < |data| then ExpandAsWritten(b, |data|) else b;
    if e.write + |data| <= |e.buffer| then
      IncreaseReadIndexAsWritten(T.Indexed(T.CopyInto(e.buffer, e.write, data), e.read, e.write), |data|)
    else None
  }

  /** Appending "xy" behind "ab" consumes everything instead of keeping "abxy". */
  lemma AppendAsWrittenDropsData()
    ensures var r := AppendAsWritten(T.Indexed("ab------", 0, 2), "xy");
      r.Some? && r.value.Readable() == []
  {
  }

  /** Appending to an empty buffer reaches the `write_index_ > read_index_` assert. */
  lemma AppendAsWrittenAssertsOnEmpty()
    ensures AppendAsWritten(T.Indexed("--------", 0, 0), "xy").None?
  {
  }

  /** Compacting "de" (read 3, write 5 of 8 bytes) for 4 more bytes keeps a stale third byte. */
  lemma ExpandAsWrittenKeepsStaleByte()
    ensures T.Indexed("abcdefgh", 3, 5).Readable() == "de"
    ensures ExpandAsWritten(T.Indexed("abcdefgh", 3, 5), 4).Readable() == "def"
  {
    assert T.CopyInto("abcdefgh", 0, "def") == "defdefgh";
  }

  class StreamBuffer {
    var buffer: seq<char>
    var readIndex: nat
    var writeIndex: nat

    predicate Valid()
      reads this
    {
      readIndex <= writeIndex <= |buffer|
    }

    function Readable(): seq<char>
      reads this
      requires Valid()
    {
      buffer[readIndex..writeIndex]
    }

    constructor(initialSize: nat)
      ensures Valid() && |buffer| == initialSize && Readable() == []
    {
      buffer := seq(initialSize, _ => '\0');
      readIndex, writeIndex := 0, 0;
    }

    /** `readable_bytes()`: the source asserts the region is non-empty. */
    function ReadableBytes(): (n: nat)
      reads this
      requires Valid() && writeIndex > readIndex
      ensures n == |Readable()| && n > 0
    {
      writeIndex - readIndex
    }

    /** `writeable_bytes()`. */
    function WriteableBytes(): (n: nat)
      reads this
      requires Valid()
      ensures n + writeIndex == |buffer|
    {
      |buffer| - writeIndex
    }

    /** `prependable_bytes()`. */
    function PrependableBytes(): (n: nat)
      reads this
      requires Valid()
      ensures n + |Readable()| == writeIndex
    {
      readIndex
    }

    /** `as_string_view()` / `as_string()`. */
    function AsString(): (s: seq<char>)
      reads this
      requires Valid() && writeIndex > readIndex
      ensures s == Readable() && |s| == ReadableBytes()
    {
      buffer[readIndex..readIndex + ReadableBytes()]
    }

    /** `increase_write_index(len)`: commits len bytes written at `write_begin()`. */
    method IncreaseWriteIndex(len: nat)
      requires Valid() && len <= WriteableBytes()
      modifies this
      ensures Valid() && buffer == old(buffer) && readIndex == old(readIndex)
      ensures writeIndex == old(writeIndex) + len
      ensures Readable() == old(Readable()) + buffer[old(writeIndex)..writeIndex]
    {
      writeIndex := writeIndex + len;
    }

    /** `reset()`. */
    method Reset()
      requires Valid()
      modifies this
      ensures Valid() && buffer == old(buffer) && readIndex == 0 && writeIndex == 0
    {
      readIndex, writeIndex := 0, 0;
    }

    /** `increase_read_index(len)`: consumes len bytes, or resets when len covers them all. */
    method IncreaseReadIndex(len: nat)
      requires Valid() && writeIndex > readIndex
      modifies this
      ensures Valid() && buffer == old(buffer)
      ensures len < old(|Readable()|) ==> Readable() == old(Readable())[len..] && writeIndex == old(writeIndex)
      ensures len >= old(|Readable()|) ==> Readable() == [] && readIndex == 0 && writeIndex == 0
    {
      if len < ReadableBytes() {
        readIndex := readIndex + len;
      } else {
        Reset();
      }
    }

    /**
     * `expand(len)`, corrected: grow to write_index_ + len when writeable + prependable < len,
     * otherwise move the readable bytes (and only those) to the front.
     */
    method Expand(len: nat)
      requires Valid()
      modifies this
      ensures Valid() && Readable() == old(Readable()) && WriteableBytes() >= len
    {
      if WriteableBytes() + PrependableBytes() < len {
        buffer := T.Resize(buffer, writeIndex + len);
      } else {
        var n := writeIndex - readIndex;
        buffer := T.CopyInto(buffer, 0, buffer[readIndex..writeIndex]);
        readIndex, writeIndex := 0, n;
      }
    }

    /** `append(data, len)`, corrected to advance the write index over the copied bytes. */
    method Append(data: seq<char>)
      requires Valid()
      modifies this
      ensures Valid() && Readable() == old(Readable()) + data
    {
      if WriteableBytes() < |data| {
        Expand(|data|);
      }
      buffer := T.CopyInto(buffer, writeIndex, data);
      IncreaseWriteIndex(|data|);
    }
  }
}
