/**
 * `zedio::io::detail::StreamBuffer`: a fixed-size byte buffer with a read cursor and a
 * write cursor. The bytes in [r_pos_, w_pos_) are the unread data; [w_pos_, size) is free.
 */
module IoStreamBuffer {
  import opened Wrappers

  const DEFAULT_BUF_SIZE: nat := 8 * 1024

  /** `needle` occurs in `hay` at position p. */
  predicate OccursAt(hay: seq<char>, needle: seq<char>, p: nat)
  {
    p + |needle| <= |hay| && hay[p..p + |needle|] == needle
  }

  /** `std::string_view::find(needle)` searching from position `from`: the first occurrence, if any. */
  function FindFrom(hay: seq<char>, needle: seq<char>, from: nat): (r: Option<nat>)
    ensures r.Some? ==> from <= r.value && OccursAt(hay, needle, r.value)
    ensures r.Some? ==> forall q :: from <= q < r.value ==> !OccursAt(hay, needle, q)
    ensures r.None? ==> forall q :: from <= q ==> !OccursAt(hay, needle, q)
    decreases |hay| - from
  {
    if from + |needle| > |hay| then None
    else if hay[from..from + |needle|] == needle then Some(from)
    else FindFrom(hay, needle, from + 1)
  }

  /** `std::string_view::find(c)` searching from position `from`. */
  function FindCharFrom(hay: seq<char>, c: char, from: nat): (r: Option<nat>)
    ensures r.Some? ==> from <= r.value < |hay| && hay[r.value] == c
    ensures r.Some? ==> forall q :: from <= q < r.value ==> hay[q] != c
    ensures r.None? ==> forall q :: from <= q < |hay| ==> hay[q] != c
    decreases |hay| - from
  {
    if from >= |hay| then None
    else if hay[from] == c then Some(from)
    else FindCharFrom(hay, c, from + 1)
  }

  function Min(a: nat, b: nat): nat { if a < b then a else b }

  class StreamBuffer {
    var buf: array<char>
    var rPos: nat
    var wPos: nat

    /** The cursor invariant the source asserts in `r_increase` and `w_increase`. */
    predicate Valid()
      reads this
    {
      rPos <= wPos <= buf.Length
    }

    /** `r_slice()`: the unread bytes. */
    function Unread(): seq<char>
      reads this, buf
      requires Valid()
    {
      buf[rPos..wPos]
    }

    /** `r_remaining()`. */
    function RRemaining(): (n: nat)
      reads this
      requires Valid()
      ensures n == wPos - rPos
    {
      wPos - rPos
    }

    /** `w_remaining()`. */
    function WRemaining(): (n: nat)
      reads this
      requires Valid()
      ensures n == buf.Length - wPos
    {
      buf.Length - wPos
    }

    /** `empty()`: no unread bytes. */
    function Empty(): (b: bool)
      reads this, buf
      requires Valid()
      ensures b <==> Unread() == []
    {
      rPos == wPos
    }

    /** `capacity()`: the bytes already read, the unread ones and the free ones together. */
    function Capacity(): (c: nat)
      reads this
      ensures c == buf.Length
      ensures Valid() ==> c == rPos + RRemaining() + WRemaining()
    {
      buf.Length
    }

    constructor(size: nat)
      ensures Valid() && fresh(buf) && buf.Length == size && rPos == 0 && wPos == 0
    {
      buf := new char[size];
      rPos, wPos := 0, 0;
    }

    /** `reset_data()`: moves the unread bytes to the front of the buffer. */
    method ResetData()
      requires Valid()
      modifies this, buf
      ensures Valid() && buf == old(buf)
      ensures rPos == 0 && wPos == old(wPos - rPos)
      ensures Unread() == old(Unread())
    {
      var len := wPos - rPos;
      ghost var data := buf[rPos..wPos];
      var i := 0;
      while i < len
        invariant 0 <= i <= len && rPos == old(rPos) && wPos == old(wPos) && buf == old(buf)
        invariant buf[..i] == data[..i]
        invariant buf[rPos + i..wPos] == data[i..]
      {
        assert buf[rPos + i] == data[i];
        buf[i] := buf[rPos + i];
        i := i + 1;
      }
      rPos, wPos := 0, len;
    }

    /** `disable()`: swaps the storage for an empty vector; the cursors are left as they are. */
    method Disable()
      requires Valid()
      modifies this
      ensures buf.Length == 0 && rPos == old(rPos) && wPos == old(wPos)
      ensures Valid() <==> wPos == 0
    {
      buf := new char[0];
    }

    /** `reset_pos()`: both cursors back to the start. */
    method ResetPos()
      modifies this
      ensures Valid() && rPos == 0 && wPos == 0 && buf == old(buf)
    {
      rPos, wPos := 0, 0;
    }

    /** `r_increase(n)`: consumes n unread bytes; the source asserts they exist. */
    method RIncrease(n: nat)
      requires Valid() && rPos + n <= wPos
      modifies this
      ensures Valid() && rPos == old(rPos) + n && wPos == old(wPos) && buf == old(buf)
      ensures Unread() == old(Unread())[n..]
    {
      rPos := rPos + n;
    }

    /** `w_increase(n)`: commits n bytes written into `w_slice()`. */
    method WIncrease(n: nat)
      requires Valid() && wPos + n <= buf.Length
      modifies this
      ensures Valid() && wPos == old(wPos) + n && rPos == old(rPos) && buf == old(buf)
      ensures Unread() == old(Unread()) + buf[old(wPos)..wPos]
    {
      wPos := wPos + n;
    }

    /**
     * `write_to(dst)`: copies min(r_remaining, |dst|) unread bytes to the front of dst and
     * consumes them; when nothing is left unread both cursors return to 0.
     */
    method WriteTo(dst: array<char>) returns (len: nat)
      requires Valid() && dst != buf
      modifies this, dst
      ensures Valid() && buf == old(buf) && buf[..] == old(buf[..])
      ensures len == Min(old(wPos - rPos), dst.Length)
      ensures dst[..len] == old(Unread())[..len] && dst[len..] == old(dst[len..])
      ensures Unread() == old(Unread())[len..]
      ensures Unread() == [] ==> rPos == 0 && wPos == 0
    {
      len := Min(wPos - rPos, dst.Length);
      var i := 0;
      while i < len
        invariant 0 <= i <= len && rPos == old(rPos) && wPos == old(wPos) && buf == old(buf)
        invariant Unread() == old(Unread())
        invariant dst[..i] == old(Unread())[..i] && dst[len..] == old(dst[len..])
      {
        assert buf[rPos + i] == old(Unread())[i];
        dst[i] := buf[rPos + i];
        assert dst[..i + 1] == dst[..i] + [dst[i]];
        i := i + 1;
      }
      RIncrease(len);
      if rPos == wPos {
        ResetPos();
      }
    }

    /**
     * `read_from(src)`: copies min(w_remaining, |src|) bytes of src to the write position
     * and commits them; the bytes before the write position and after the copied ones are
     * untouched.
     */
    method ReadFrom(src: seq<char>) returns (len: nat)
      requires Valid()
      modifies this, buf
      ensures Valid() && buf == old(buf) && rPos == old(rPos)
      ensures len == Min(old(buf.Length - wPos), |src|)
      ensures wPos == old(wPos) + len
      ensures buf[..old(wPos)] == old(buf[..wPos])
      ensures buf[wPos..] == old(buf[wPos + len..])
      ensures Unread() == old(Unread()) + src[..len]
    {
      len := Min(buf.Length - wPos, |src|);
      var i := 0;
      while i < len
        invariant 0 <= i <= len && rPos == old(rPos) && wPos == old(wPos) && buf == old(buf)
        invariant buf[..wPos] == old(buf[..wPos])
        invariant buf[wPos..wPos + i] == src[..i]
        invariant buf[wPos + len..] == old(buf[wPos + len..])
      {
        buf[wPos + i] := src[i];
        i := i + 1;
      }
      WIncrease(len);
    }

    /**
     * `find_flag_and_return_slice(end_str)`: the unread prefix up to and including the first
     * occurrence of `flag`, or empty when it does not occur.
     */
    function FindFlagAndReturnSlice(flag: seq<char>): (s: seq<char>)
      reads this, buf
      requires Valid()
      ensures FindFrom(Unread(), flag, 0).None? ==> s == []
      ensures FindFrom(Unread(), flag, 0).Some? ==>
        var p := FindFrom(Unread(), flag, 0).value;
        s == Unread()[..p + |flag|] && s[p..] == flag
    {
      match FindFrom(Unread(), flag, 0)
      case None => []
      case Some(p) => Unread()[..p + |flag|]
    }

    /**
     * `find_flag_and_return_slice(end_char)`: the unread prefix up to and including the first
     * byte equal to `c`, or empty when there is none.
     */
    function FindCharAndReturnSlice(c: char): (s: seq<char>)
      reads this, buf
      requires Valid()
      ensures s == [] <==> forall q :: 0 <= q < |Unread()| ==> Unread()[q] != c
      ensures |s| <= |Unread()| && s == Unread()[..|s|]
      ensures s != [] ==> s[|s| - 1] == c
      ensures forall q :: 0 <= q < |s| - 1 ==> s[q] != c
    {
      match FindCharFrom(Unread(), c, 0)
      case None => []
      case Some(p) => Unread()[..p + 1]
    }
  }
}
