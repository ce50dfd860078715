/**
 * `zed::net::detail::TcpBuffer`: a growable byte vector with a read index and a write index
 * (muduo style). [read, write) is readable, [write, size) writeable, [0, read) prependable.
 */
module ZedTcpBuffer {
  import opened Wrappers

  /** `memcpy(dst + at, src, |src|)` on a byte vector, defined when it stays inside. */
  function CopyInto(buffer: seq<char>, at: nat, src: seq<char>): (r: seq<char>)
    requires at + |src| <= |buffer|
    ensures |r| == |buffer| && r[at..at + |src|] == src
    ensures r[..at] == buffer[..at] && r[at + |src|..] == buffer[at + |src|..]
  {
    buffer[..at] + src + buffer[at + |src|..]
  }

  /** `std::vector::resize(n)`: truncates, or appends value-initialised cells. */
  function Resize(buffer: seq<char>, n: nat): (r: seq<char>)
    ensures |r| == n
    ensures n <= |buffer| ==> r == buffer[..n]
    ensures |buffer| <= n ==> r[..|buffer|] == buffer
  {
    if n <= |buffer| then buffer[..n] else buffer + seq(n - |buffer|, _ => '\0')
  }

  /** Buffer contents and indices, as the as-written functions pass them around. */
  datatype Indexed = Indexed(buffer: seq<char>, read: nat, write: nat)
  {
    predicate Valid() { read <= write <= |buffer| }
    function Readable(): seq<char> requires Valid() { buffer[read..write] }
  }

  /**
   * `expand(len)` exactly as written: resize when writeable < prependable, otherwise move
   * `writeable_bytes()` bytes from the read index to the front.
   */
  function ExpandAsWritten(b: Indexed, len: nat): (r: Indexed)
    requires b.Valid()
    ensures r.Valid()
  {
    var writeable := |b.buffer| - b.write;
    if writeable < b.read then Indexed(Resize(b.buffer, b.write + len), b.read, b.write)
    else
      var n := writeable;
      Indexed(CopyInto(b.buffer, 0, b.buffer[b.read..b.read + n]), 0, n)
  }

  /** `append(data, len)` as written; None when its `memcpy` would run past the vector. */
  function AppendAsWritten(b: Indexed, data: seq<char>): (r: Option<Indexed>)
    requires b.Valid()
    ensures r.Some? ==> r.value.Valid()
  {
    var e := if |b.buffer| - b.write < |data| then ExpandAsWritten(b, |data|) else b;
    if e.write + |data| <= |e.buffer| then
      Some(Indexed(CopyInto(e.buffer, e.write, data), e.read, e.write + |data|))
    else None
  }

  /**
   * With 8 bytes, read 3, write 5 (readable "de") appending "WXYZ" compacts 3 bytes, so one
   * stale byte ends up between the old data and the new.
   */
  lemma AppendAsWrittenKeepsStaleByte()
    ensures var b := Indexed("abcdefgh", 3, 5);
      var r := AppendAsWritten(b, "WXYZ");
      b.Readable() == "de" && r.Some? && r.value.Readable() == "defWXYZ"
  {
    var b := Indexed("abcdefgh", 3, 5);
    var e := ExpandAsWritten(b, 4);
    assert e.buffer == "defdefgh" && e.read == 0 && e.write == 3;
    assert CopyInto(e.buffer, 3, "WXYZ") == "defWXYZh";
  }

  /** With 8 bytes, read 1, write 4, appending 6 bytes compacts without making room. */
  lemma AppendAsWrittenOverflows()
    ensures AppendAsWritten(Indexed("abcdefgh", 1, 4), "UVWXYZ").None?
  {
    var b := Indexed("abcdefgh", 1, 4);
    assert ExpandAsWritten(b, 6).write == 4;
  }

  class TcpBuffer {
    var buffer: seq<char>
    var readIndex: nat
    var writeIndex: nat

    predicate Valid()
      reads this
    {
      readIndex <= writeIndex <= |buffer|
    }

    /** The readable region [read_index_, write_index_). */
    function Readable(): seq<char>
      reads this
      requires Valid()
    {
      buffer[readIndex..writeIndex]
    }

    constructor(initialSize: nat)
      ensures Valid() && |buffer| == initialSize && Readable() == []
    {
      buffer := seq(initialSize, _ => '\0');
      readIndex, writeIndex := 0, 0;
    }

    /** `readable_bytes()`: the source asserts the region is non-empty. */
    function ReadableBytes(): (n: nat)
      reads this
      requires Valid() && writeIndex > readIndex
      ensures n == |Readable()| && n > 0
    {
      writeIndex - readIndex
    }

    /** `writeable_bytes()`. */
    function WriteableBytes(): (n: nat)
      reads this
      requires Valid()
      ensures n + writeIndex == |buffer|
    {
      |buffer| - writeIndex
    }

    /** `prependable_bytes()`. */
    function PrependableBytes(): (n: nat)
      reads this
      requires Valid()
      ensures n + |Readable()| == writeIndex
    {
      readIndex
    }

    /** `as_string_view()` / `as_string()`. */
    function AsString(): (s: seq<char>)
      reads this
      requires Valid() && writeIndex > readIndex
      ensures s == Readable() && |s| == ReadableBytes()
    {
      buffer[readIndex..readIndex + ReadableBytes()]
    }

    /** `has_written(len)`: commits len bytes written at `begin_write()`. */
    method HasWritten(len: nat)
      requires Valid() && len <= WriteableBytes()
      modifies this
      ensures Valid() && buffer == old(buffer) && readIndex == old(readIndex)
      ensures writeIndex == old(writeIndex) + len
      ensures Readable() == old(Readable()) + buffer[old(writeIndex)..writeIndex]
    {
      writeIndex := writeIndex + len;
    }

    /** `retrieve_all()`. */
    method RetrieveAll()
      requires Valid()
      modifies this
      ensures Valid() && buffer == old(buffer) && readIndex == 0 && writeIndex == 0
    {
      readIndex, writeIndex := 0, 0;
    }

    /** `retrieve(len)`: consumes len bytes, or everything (both indices to 0) when len covers it. */
    method Retrieve(len: nat)
      requires Valid() && writeIndex > readIndex
      modifies this
      ensures Valid() && buffer == old(buffer)
      ensures len < old(|Readable()|) ==> Readable() == old(Readable())[len..] && writeIndex == old(writeIndex)
      ensures len >= old(|Readable()|) ==> Readable() == [] && readIndex == 0 && writeIndex == 0
    {
      if len < ReadableBytes() {
        readIndex := readIndex + len;
      } else {
        RetrieveAll();
      }
    }

    /**
     * `expand(len)`, corrected: grow to write_index_ + len when the free space around the
     * readable bytes is too small, otherwise move the readable bytes (and only those) to the
     * front. Either way at least len bytes become writeable and the readable bytes are kept.
     */
    method Expand(len: nat)
      requires Valid()
      modifies this
      ensures Valid() && Readable() == old(Readable()) && WriteableBytes() >= len
    {
      if WriteableBytes() + PrependableBytes() < len {
        buffer := Resize(buffer, writeIndex + len);
      } else {
        var n := writeIndex - readIndex;
        buffer := CopyInto(buffer, 0, buffer[readIndex..writeIndex]);
        readIndex, writeIndex := 0, n;
      }
    }

    /** `append(data, len)`: the readable bytes become the old ones followed by data. */
    method Append(data: seq<char>)
      requires Valid()
      modifies this
      ensures Valid() && Readable() == old(Readable()) + data
    {
      if WriteableBytes() < |data| {
        Expand(|data|);
      }
      buffer := CopyInto(buffer, writeIndex, data);
      HasWritten(|data|);
    }
  }
}
