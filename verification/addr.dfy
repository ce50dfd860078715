/**
 * Field logic of the socket-address classes: IPv4/IPv6 addresses as the bytes the kernel
 * sees, `SocketAddr` over the storage of its `sockaddr_in`/`sockaddr_in6` union, and
 * `UnixSocketAddr` over a `sockaddr_un`. Multi-byte fields are laid out for a
 * little-endian host (x86-64 Linux): family at bytes 0-1 in host order, port at bytes
 * 2-3 in network order, the IPv4 address at bytes 4-7, the IPv6 address at bytes 8-23.
 * Address text (`inet_ntop`) is passed in as a function.
 */
module Addr {
  import opened Wrappers
  import opened Decimal

  type Byte = bv8

  const AF_UNIX: bv16 := 1
  const AF_INET: bv16 := 2
  const AF_INET6: bv16 := 10
  const SOCKADDR_IN_LEN: nat := 16
  const SOCKADDR_IN6_LEN: nat := 28
  const SUN_PATH_LEN: nat := 108
  const SUN_FAMILY_LEN: nat := 2

  /** The two bytes a `uint16_t` occupies in memory on the host: low byte first. */
  function U16Bytes(v: bv16): (b: seq<Byte>)
    ensures |b| == 2
  {
    [(v & 0xFF) as Byte, (v >> 8) as Byte]
  }

  /** The `uint16_t` stored at `bytes[at..at + 2]` on the host. */
  function U16At(bytes: seq<Byte>, at: nat): bv16
    requires at + 2 <= |bytes|
  {
    bytes[at] as bv16 | (bytes[at + 1] as bv16 << 8)
  }

  /** A `uint16_t` read from the same two bytes is the same. */
  lemma U16AtSame(x: seq<Byte>, y: seq<Byte>, at: nat)
    requires at + 2 <= |x| && at + 2 <= |y| && x[at] == y[at] && x[at + 1] == y[at + 1]
    ensures U16At(x, at) == U16At(y, at)
  {
  }

  /** The four bytes a `uint32_t` occupies in memory on the host: low byte first. */
  function U32Bytes(v: bv32): (b: seq<Byte>)
    ensures |b| == 4
  {
    [(v & 0xFF) as Byte, ((v >> 8) & 0xFF) as Byte, ((v >> 16) & 0xFF) as Byte, (v >> 24) as Byte]
  }

  /** The `uint32_t` stored at `bytes[at..at + 4]` on the host. */
  function U32At(bytes: seq<Byte>, at: nat): bv32
    requires at + 4 <= |bytes|
  {
    bytes[at] as bv32 | (bytes[at + 1] as bv32 << 8) | (bytes[at + 2] as bv32 << 16)
      | (bytes[at + 3] as bv32 << 24)
  }

  lemma U16RoundTrip(v: bv16, bytes: seq<Byte>, at: nat)
    requires at + 2 <= |bytes| && bytes[at] == U16Bytes(v)[0] && bytes[at + 1] == U16Bytes(v)[1]
    ensures U16At(bytes, at) == v
  {
  }

  lemma U32RoundTrip(v: bv32, bytes: seq<Byte>, at: nat)
    requires at + 4 <= |bytes|
    requires bytes[at] == U32Bytes(v)[0] && bytes[at + 1] == U32Bytes(v)[1]
    requires bytes[at + 2] == U32Bytes(v)[2] && bytes[at + 3] == U32Bytes(v)[3]
    ensures U32At(bytes, at) == v
  {
  }

  /** `htons` on a little-endian host: swaps the two bytes. */
  function Htons(v: bv16): (r: bv16)
    ensures U16Bytes(r) == [(v >> 8) as Byte, (v & 0xFF) as Byte]
  {
    (v << 8) | (v >> 8)
  }

  /** `ntohs`: the same swap, so it undoes `htons`. */
  function Ntohs(v: bv16): (r: bv16)
    ensures Htons(r) == v && r == Htons(v)
  {
    (v << 8) | (v >> 8)
  }

  /** `ntohs` of the `uint16_t` stored at `at` reads the two bytes in network order: the first is the high byte. */
  lemma NtohsOfBytes(bytes: seq<Byte>, at: nat)
    requires at + 2 <= |bytes|
    ensures Ntohs(U16At(bytes, at)) == (bytes[at] as bv16 << 8) | bytes[at + 1] as bv16
  {
    SwapBytes(bytes[at], bytes[at + 1]);
  }

  /** Swapping the bytes of `lo | hi << 8` gives `lo << 8 | hi`. */
  lemma SwapBytes(lo: Byte, hi: Byte)
    ensures Ntohs(lo as bv16 | (hi as bv16 << 8)) == (lo as bv16 << 8) | hi as bv16
  {
  }

  /** A `uint32_t` read from the same four bytes is the same. */
  lemma U32AtSame(x: seq<Byte>, y: seq<Byte>, at: nat)
    requires at + 4 <= |x| && at + 4 <= |y|
    requires x[at] == y[at] && x[at + 1] == y[at + 1] && x[at + 2] == y[at + 2] && x[at + 3] == y[at + 3]
    ensures U32At(x, at) == U32At(y, at)
  {
  }

  /** An IPv4 address: the `uint32_t` in network byte order as `in_addr.s_addr` holds it. */
  datatype Ipv4Addr = Ipv4Addr(ip: bv32)

  /**
   * `Ipv4Addr(a, b, c, d)`: `a | b << 8 | c << 16 | d << 24`, so that in memory the
   * address reads a, b, c, d — the dotted octets in network order.
   */
  function Ipv4FromOctets(a: Byte, b: Byte, c: Byte, d: Byte): (r: Ipv4Addr)
    ensures U32Bytes(r.ip) == [a, b, c, d]
  {
    Ipv4Addr(a as bv32 | (b as bv32 << 8) | (c as bv32 << 16) | (d as bv32 << 24))
  }

  /** `operator==` compares the words, so two octet lists give equal addresses only if they are equal. */
  lemma Ipv4EqualIffOctets(a: Byte, b: Byte, c: Byte, d: Byte, a': Byte, b': Byte, c': Byte, d': Byte)
    ensures Ipv4FromOctets(a, b, c, d) == Ipv4FromOctets(a', b', c', d')
      <==> [a, b, c, d] == [a', b', c', d']
  {
    var x, y := Ipv4FromOctets(a, b, c, d), Ipv4FromOctets(a', b', c', d');
    if x == y {
      assert U32Bytes(x.ip) == U32Bytes(y.ip);
    }
  }

  /** An IPv6 address: the 16 bytes of its `in6_addr`. */
  datatype Ipv6Addr = Ipv6Addr(bytes: seq<Byte>)

  /** The 16-bit groups laid out in memory, each stored with `htons`. */
  function GroupBytes(groups: seq<bv16>): (b: seq<Byte>)
    ensures |b| == 2 * |groups|
  {
    if groups == [] then [] else U16Bytes(Htons(groups[0])) + GroupBytes(groups[1..])
  }

  /** `Ipv6Addr(a, ..., h)`: each group is stored with `htons`, i.e. in network byte order. */
  function Ipv6FromGroups(groups: seq<bv16>): (r: Ipv6Addr)
    requires |groups| == 8
    ensures |r.bytes| == 16
  {
    Ipv6Addr(GroupBytes(groups))
  }

  /** The 16-bit value of two bytes in network order. */
  function Be16(hi: Byte, lo: Byte): bv16
  {
    (hi as bv16 << 8) | lo as bv16
  }

  /** The 16-bit groups of a byte string in network order, read back pairwise. */
  function BytesToGroups(b: seq<Byte>): (g: seq<bv16>)
    requires |b| % 2 == 0
    ensures |g| == |b| / 2
  {
    if b == [] then [] else [Be16(b[0], b[1])] + BytesToGroups(b[2..])
  }

  lemma BigEndianPair(g: bv16)
    ensures Be16((g >> 8) as Byte, (g & 0xFF) as Byte) == g
  {
  }

  /** The groups an IPv6 address holds. */
  function Ipv6Groups(a: Ipv6Addr): (g: seq<bv16>)
    requires |a.bytes| == 16
    ensures |g| == 8
  {
    BytesToGroups(a.bytes)
  }

  lemma {:induction false} GroupBytesRoundTrip(groups: seq<bv16>)
    ensures BytesToGroups(GroupBytes(groups)) == groups
  {
    if groups != [] {
      PairThenRest(groups[0], GroupBytes(groups[1..]));
      GroupBytesRoundTrip(groups[1..]);
    }
  }

  /** The first group read back from a byte string that starts with a stored group is that group. */
  lemma PairThenRest(g: bv16, rest: seq<Byte>)
    requires |rest| % 2 == 0
    ensures BytesToGroups(U16Bytes(Htons(g)) + rest) == [g] + BytesToGroups(rest)
  {
    var pair := U16Bytes(Htons(g));
    var b := pair + rest;
    assert b[2..] == rest;
    assert b[0] == pair[0] && b[1] == pair[1];
    BigEndianPair(g);
  }

  /** The groups given to the constructor are the groups the address holds. */
  lemma Ipv6GroupsRoundTrip(groups: seq<bv16>)
    requires |groups| == 8
    ensures Ipv6Groups(Ipv6FromGroups(groups)) == groups
  {
    GroupBytesRoundTrip(groups);
  }

  /** `operator==` is `memcmp` of the 16 bytes: equal exactly when the groups are equal. */
  lemma Ipv6EqualIffGroups(g1: seq<bv16>, g2: seq<bv16>)
    requires |g1| == 8 && |g2| == 8
    ensures Ipv6FromGroups(g1).bytes == Ipv6FromGroups(g2).bytes <==> g1 == g2
  {
    if Ipv6FromGroups(g1).bytes == Ipv6FromGroups(g2).bytes {
      Ipv6GroupsRoundTrip(g1);
      Ipv6GroupsRoundTrip(g2);
    }
  }

  datatype IpAddr = V4(v4: Ipv4Addr) | V6(v6: Ipv6Addr)

  /** `SocketAddr`: the storage of the `sockaddr_in`/`sockaddr_in6` union. */
  class SocketAddr {
    const storage: array<Byte>

    predicate Valid()
    {
      storage.Length == SOCKADDR_IN6_LEN
    }

    /** `family()`: the `sa_family_t` at the start of the union. */
    function Family(): (f: bv16)
      reads this, storage
      requires Valid()
      ensures U16Bytes(f) == storage[..2]
    {
      U16At(storage[..], 0)
    }

    /** `is_ipv4()`: the family bytes are those of AF_INET, low byte first. */
    function IsIpv4(): (b: bool)
      reads this, storage
      requires Valid()
      ensures b <==> storage[0] == 2 && storage[1] == 0
    {
      Family() == AF_INET
    }

    /** `is_ipv6()`: the family bytes are those of AF_INET6, low byte first. */
    function IsIpv6(): (b: bool)
      reads this, storage
      requires Valid()
      ensures b <==> storage[0] == 10 && storage[1] == 0
    {
      Family() == AF_INET6
    }

    /** `port()`: `ntohs` of the port field, which is at the same place in both variants. */
    function Port(): (p: bv16)
      reads this, storage
      requires Valid()
      ensures p == (storage[2] as bv16 << 8) | storage[3] as bv16
    {
      NtohsOfBytes(storage[..], 2);
      Ntohs(U16At(storage[..], 2))
    }

    /** `ip()`: the IPv4 address when the family is AF_INET, the IPv6 address otherwise. */
    function Ip(): (r: IpAddr)
      reads this, storage
      requires Valid()
      ensures r.V4? <==> IsIpv4()
    {
      if IsIpv4() then V4(Ipv4Addr(U32At(storage[..], 4))) else V6(Ipv6Addr(storage[8..24]))
    }

    /** `length()`: `sizeof(sockaddr_in)` for IPv4 and `sizeof(sockaddr_in6)` for anything else. */
    function Length(): (n: nat)
      reads this, storage
      requires Valid()
      ensures n <= storage.Length
      ensures IsIpv4() ==> n == SOCKADDR_IN_LEN
      ensures !IsIpv4() ==> n == SOCKADDR_IN6_LEN
    {
      if IsIpv4() then SOCKADDR_IN_LEN else SOCKADDR_IN6_LEN
    }

    /**
     * `to_string()`: `<ip>:<port>` for IPv4 and `[<ip>]:<port>` otherwise, the port in
     * decimal; `ntop4`/`ntop6` stand for `inet_ntop`.
     */
    function ToString(ntop4: bv32 -> string, ntop6: seq<Byte> -> string): (s: string)
      reads this, storage
      requires Valid()
      ensures EndsWithPort(s, Port())
      ensures !IsIpv4() ==> BracketedHost(s, Port())
      ensures var host := s[..|s| - |NatToDecimal(Port() as nat)| - 1];
        if IsIpv4() then host == ntop4(U32At(storage[..], 4)) else host == "[" + ntop6(storage[8..24]) + "]"
    {
      AddrText(Ip(), Port(), ntop4, ntop6)
    }

    /** `SocketAddr(const Ipv4Addr &, uint16_t)`. */
    constructor FromIpv4(ip: Ipv4Addr, port: bv16)
      ensures Valid() && fresh(storage)
      ensures IsIpv4() && !IsIpv6() && Port() == port && Ip() == V4(ip)
      ensures Length() == SOCKADDR_IN_LEN
    {
      var s := new Byte[SOCKADDR_IN6_LEN];
      var fam, prt, a := U16Bytes(AF_INET), U16Bytes(Htons(port)), U32Bytes(ip.ip);
      s[0], s[1] := fam[0], fam[1];
      s[2], s[3] := prt[0], prt[1];
      s[4], s[5], s[6], s[7] := a[0], a[1], a[2], a[3];
      storage := s;
      new;
      U16RoundTrip(AF_INET, storage[..], 0);
      U16RoundTrip(Htons(port), storage[..], 2);
      U32RoundTrip(ip.ip, storage[..], 4);
    }

    /** `SocketAddr(const Ipv6Addr &, uint16_t)`. */
    constructor FromIpv6(ip: Ipv6Addr, port: bv16)
      requires |ip.bytes| == 16
      ensures Valid() && fresh(storage)
      ensures IsIpv6() && !IsIpv4() && Port() == port && Ip() == V6(ip)
      ensures Length() == SOCKADDR_IN6_LEN
    {
      var s := new Byte[SOCKADDR_IN6_LEN];
      var fam, prt := U16Bytes(AF_INET6), U16Bytes(Htons(port));
      s[0], s[1] := fam[0], fam[1];
      s[2], s[3] := prt[0], prt[1];
      forall i | 8 <= i < 24 { s[i] := ip.bytes[i - 8]; }
      storage := s;
      new;
      U16RoundTrip(AF_INET6, storage[..], 0);
      U16RoundTrip(Htons(port), storage[..], 2);
      assert storage[8..24] == ip.bytes;
    }

    /** `SocketAddr(const sockaddr *, size_t len)`: copies the first `len` bytes. */
    constructor FromRaw(raw: seq<Byte>)
      requires |raw| <= SOCKADDR_IN6_LEN
      ensures Valid() && fresh(storage)
      ensures storage[..|raw|] == raw
    {
      var s := new Byte[SOCKADDR_IN6_LEN];
      forall i | 0 <= i < |raw| { s[i] := raw[i]; }
      storage := s;
    }

    /** `set_port(p)`: afterwards `port()` is p; the family and the address are unchanged. */
    method SetPort(port: bv16)
      requires Valid()
      modifies storage
      ensures Valid() && Port() == port
      ensures Family() == old(Family()) && Ip() == old(Ip())
    {
      var prt := U16Bytes(Htons(port));
      storage[2], storage[3] := prt[0], prt[1];
      U16RoundTrip(Htons(port), storage[..], 2);
      assert storage[..][0..2] == old(storage[..][0..2]);
      assert storage[..][4..8] == old(storage[..][4..8]);
    }

    /** `set_ip(Ipv4Addr &)`: writes `sin_addr`; family and port are unchanged. */
    method SetIpv4(ip: Ipv4Addr)
      requires Valid()
      modifies storage
      ensures Valid() && Family() == old(Family()) && Port() == old(Port())
      ensures IsIpv4() ==> Ip() == V4(ip)
    {
      var a := U32Bytes(ip.ip);
      storage[4], storage[5], storage[6], storage[7] := a[0], a[1], a[2], a[3];
      U32RoundTrip(ip.ip, storage[..], 4);
    }

    /** `set_ip(Ipv6Addr &)`: writes `sin6_addr`; family and port are unchanged. */
    method SetIpv6(ip: Ipv6Addr)
      requires Valid() && |ip.bytes| == 16
      modifies storage
      ensures Valid() && Family() == old(Family()) && Port() == old(Port())
      ensures IsIpv6() ==> Ip() == V6(ip)
    {
      forall i | 8 <= i < 24 { storage[i] := ip.bytes[i - 8]; }
      assert storage[8..24] == ip.bytes;
    }
  }

  /** The text ends with a colon and the port in decimal. */
  predicate EndsWithPort(s: string, port: bv16)
  {
    var p := NatToDecimal(port as nat);
    |s| > |p| && s[|s| - |p| - 1..] == ":" + p
  }

  /** The host part of the text is in brackets: it starts with '[' and ']' comes just before the ':'. */
  predicate BracketedHost(s: string, port: bv16)
  {
    var p := NatToDecimal(port as nat);
    |s| > |p| + 1 && s[0] == '[' && s[|s| - |p| - 2] == ']'
  }

  /** The text of an address and a port: `<ip>:<port>`, with the IPv6 address in brackets. */
  function AddrText(ip: IpAddr, port: bv16, ntop4: bv32 -> string, ntop6: seq<Byte> -> string): (s: string)
    ensures EndsWithPort(s, port)
    ensures ip.V6? ==> BracketedHost(s, port)
    ensures s[..|s| - |NatToDecimal(port as nat)| - 1]
      == if ip.V4? then ntop4(ip.v4.ip) else "[" + ntop6(ip.v6.bytes) + "]"
  {
    var host := match ip
      case V4(a) => ntop4(a.ip)
      case V6(a) => Bracketed(ntop6(a.bytes));
    JoinPort(host, NatToDecimal(port as nat))
  }

  /** `[<text>]`: an IPv6 address as it appears before a port. */
  function Bracketed(text: string): (r: string)
    ensures |r| == |text| + 2 && r[0] == '[' && r[|r| - 1] == ']'
  {
    "[" + text + "]"
  }

  /** `<host>:<port>`: starts with the host and ends with a colon and the port. */
  function JoinPort(host: string, port: string): (s: string)
    ensures |s| == |host| + 1 + |port| && s[..|host|] == host && s[|host|..] == ":" + port
  {
    host + ":" + port
  }

  /**
   * Copying `length()` bytes of an address into a new one (`SocketAddr{a.sockaddr(),
   * a.length()}`) keeps the family, the port and the address.
   */
  method CopyOf(a: SocketAddr) returns (b: SocketAddr)
    requires a.Valid()
    ensures b.Valid()
    ensures b.Family() == a.Family() && b.Port() == a.Port() && b.Ip() == a.Ip()
    ensures b.Length() == a.Length()
  {
    var n := a.Length();
    b := new SocketAddr.FromRaw(a.storage[..n]);
    ghost var x, y := a.storage[..], b.storage[..];
    forall i | 0 <= i < n ensures x[i] == y[i] {
      assert x[..n][i] == y[..n][i];
    }
    U16AtSame(x, y, 0);
    U16AtSame(x, y, 2);
    if a.IsIpv4() {
      U32AtSame(x, y, 4);
    } else {
      assert x[8..24] == y[8..24];
    }
  }

  /** `UnixSocketAddr`: a zero-initialised `sockaddr_un`. */
  class UnixSocketAddr {
    var family: bv16
    const sunPath: array<char>

    predicate Valid()
      reads this
    {
      sunPath.Length == SUN_PATH_LEN
    }

    /** `strlen(sun_path)`: the bytes before the first NUL (the array holds one, see `Parse`). */
    function StrLen(): (n: nat)
      reads this, sunPath
      requires Valid()
      ensures n <= SUN_PATH_LEN
      ensures forall i :: 0 <= i < n ==> sunPath[i] != '\0'
      ensures n < SUN_PATH_LEN ==> sunPath[n] == '\0'
    {
      StrLenFrom(0)
    }

    function StrLenFrom(k: nat): (n: nat)
      reads this, sunPath
      requires Valid() && k <= SUN_PATH_LEN
      ensures k <= n <= SUN_PATH_LEN
      ensures forall i :: k <= i < n ==> sunPath[i] != '\0'
      ensures n < SUN_PATH_LEN ==> sunPath[n] == '\0'
      decreases SUN_PATH_LEN - k
    {
      if k == SUN_PATH_LEN || sunPath[k] == '\0' then k else StrLenFrom(k + 1)
    }

    /** `pathname()`: the C string in `sun_path`. */
    function Pathname(): (p: string)
      reads this, sunPath
      requires Valid()
      ensures |p| <= SUN_PATH_LEN && p == sunPath[..|p|]
      ensures forall i :: 0 <= i < |p| ==> p[i] != '\0'
      ensures |p| < SUN_PATH_LEN ==> sunPath[|p|] == '\0'
    {
      sunPath[..StrLen()]
    }

    /** `length()`: `strlen(sun_path) + sizeof(sun_family)`. */
    function Length(): (n: nat)
      reads this, sunPath
      requires Valid()
      ensures n == |Pathname()| + SUN_FAMILY_LEN
    {
      StrLen() + SUN_FAMILY_LEN
    }

    /** `has_pathname()` as written: true when the first path byte is NUL. */
    function HasPathnameAsWritten(): (b: bool)
      reads this, sunPath
      requires Valid()
      ensures b <==> Pathname() == []
    {
      sunPath[0] == '\0'
    }

    /** `has_pathname()` as intended: true when the address carries a non-empty path. */
    function HasPathname(): (b: bool)
      reads this, sunPath
      requires Valid()
      ensures b <==> Pathname() != []
    {
      sunPath[0] != '\0'
    }

    /** `UnixSocketAddr(std::string_view path)`: AF_UNIX and the path copied into the zeroed array. */
    constructor FromPath(path: string)
      requires |path| < SUN_PATH_LEN
      ensures Valid() && fresh(sunPath) && family == AF_UNIX
      ensures sunPath[..|path|] == path
      ensures forall i :: |path| <= i < SUN_PATH_LEN ==> sunPath[i] == '\0'
    {
      family := AF_UNIX;
      var p := new char[SUN_PATH_LEN](_ => '\0');
      forall i | 0 <= i < |path| { p[i] := path[i]; }
      sunPath := p;
    }
  }

  /**
   * `UnixSocketAddr::parse`: no address for an empty path or one that does not fit
   * `sun_path` with its terminating NUL; otherwise an AF_UNIX address holding the path.
   */
  method ParseUnix(path: string) returns (r: Option<UnixSocketAddr>)
    ensures r.None? <==> |path| >= SUN_PATH_LEN || path == []
    ensures r.Some? ==> r.value.Valid() && r.value.family == AF_UNIX
    ensures r.Some? ==> r.value.sunPath[..|path|] == path
    ensures r.Some? ==> forall i :: |path| <= i < SUN_PATH_LEN ==> r.value.sunPath[i] == '\0'
  {
    if |path| >= SUN_PATH_LEN || path == [] {
      return None;
    }
    var u := new UnixSocketAddr.FromPath(path);
    return Some(u);
  }

  /** `strlen` from position k stops at the first NUL at or after k. */
  lemma {:induction false} StrLenAt(u: UnixSocketAddr, k: nat, m: nat)
    requires u.Valid() && k <= m < SUN_PATH_LEN && u.sunPath[m] == '\0'
    requires forall i :: k <= i < m ==> u.sunPath[i] != '\0'
    ensures u.StrLenFrom(k) == m
    decreases m - k
  {
    if k < m {
      StrLenAt(u, k + 1, m);
    }
  }

  /** A path without NUL bytes is the address's pathname, and its length counts the family field. */
  lemma ParsedPathname(u: UnixSocketAddr, path: string)
    requires u.Valid() && |path| < SUN_PATH_LEN
    requires u.sunPath[..|path|] == path && forall i :: |path| <= i < SUN_PATH_LEN ==> u.sunPath[i] == '\0'
    requires forall i :: 0 <= i < |path| ==> path[i] != '\0'
    ensures u.Pathname() == path && u.Length() == |path| + SUN_FAMILY_LEN
  {
    StrLenAt(u, 0, |path|);
  }

  /** For the address of any non-empty path, the as-written `has_pathname` says false and the intended one true. */
  lemma HasPathnameInverted(u: UnixSocketAddr, path: string)
    requires u.Valid() && 0 < |path| < SUN_PATH_LEN
    requires u.sunPath[..|path|] == path && forall i :: |path| <= i < SUN_PATH_LEN ==> u.sunPath[i] == '\0'
    requires forall i :: 0 <= i < |path| ==> path[i] != '\0'
    ensures !u.HasPathnameAsWritten() && u.HasPathname()
  {
    assert u.sunPath[0] == path[0];
  }
}
