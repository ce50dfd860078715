/**
 * The Redis client example: RESP (the Redis serialization protocol) commands built as text,
 * the codec that reads one reply from the connection, and the reply checks of `set` and
 * `get`. Text is a sequence of bytes (`char`s). The connection's remaining input is passed in
 * as a string and the part a read leaves behind is returned.
 */
module RedisClient {
  import opened Wrappers
  import opened Decimal

  const CRLF: string := "\r\n"

  /** 2^64: `unsigned long` arithmetic is modulo this. */
  const U64: nat := 0x1_0000_0000_0000_0000

  /** The range of `long`. */
  const LONG_MIN: int := -0x8000_0000_0000_0000
  const LONG_MAX: int := 0x7FFF_FFFF_FFFF_FFFF

  /** 2^32, and the largest `int`: `int` is 32 bits wide. */
  const U32: nat := 0x1_0000_0000
  const INT_MAX: int := 0x7FFF_FFFF

  // ---------------------------------------------------------------------------------------
  // RESP as the protocol defines it: bulk strings and arrays of bulk strings.
  // ---------------------------------------------------------------------------------------

  /** A bulk string: `$`, the byte length in decimal, CRLF, the data, CRLF. */
  function BulkString(data: string): string
  {
    "$" + NatToDecimal(|data|) + CRLF + data + CRLF
  }

  /** The bulk strings of `elems`, one after the other. */
  function Bulks(elems: seq<string>): string
  {
    if elems == [] then "" else BulkString(elems[0]) + Bulks(elems[1..])
  }

  /** An array of bulk strings: `*`, the element count in decimal, CRLF, the elements. */
  function Array(elems: seq<string>): string
  {
    "*" + NatToDecimal(|elems|) + CRLF + Bulks(elems)
  }

  /** Reads a decimal count ended by CRLF from the front of `s`. */
  function ParseCount(s: string): (r: Option<(nat, string)>)
    ensures r.Some? ==> |r.value.1| < |s|
  {
    var k := DigitRun(s);
    if k == 0 || |s| < k + 2 || s[k..k + 2] != CRLF then None
    else Some((DigitsValue(s[..k]), s[k + 2..]))
  }

  /** Reads one bulk string from the front of `s`: its data and what follows it. */
  function ParseBulk(s: string): (r: Option<(string, string)>)
    ensures r.Some? ==> |r.value.1| < |s|
  {
    if s == [] || s[0] != '$' then None
    else
      match ParseCount(s[1..])
      case None => None
      case Some((n, t)) =>
        if |t| < n + 2 || t[n..n + 2] != CRLF then None
        else Some((t[..n], t[n + 2..]))
  }

  /** Reads `n` bulk strings one after the other. */
  function ParseBulks(s: string, n: nat): Option<(seq<string>, string)>
  {
    if n == 0 then Some(([], s))
    else
      match ParseBulk(s)
      case None => None
      case Some((e, t)) =>
        match ParseBulks(t, n - 1)
        case None => None
        case Some((es, u)) => Some(([e] + es, u))
  }

  /** Reads an array of bulk strings: the elements and what follows the array. */
  function ParseArray(s: string): Option<(seq<string>, string)>
  {
    if s == [] || s[0] != '*' then None
    else
      match ParseCount(s[1..])
      case None => None
      case Some((n, t)) => ParseBulks(t, n)
  }

  lemma ParseCountOf(n: nat, rest: string)
    ensures ParseCount(NatToDecimal(n) + CRLF + rest) == Some((n, rest))
  {
    var d := NatToDecimal(n);
    var s := d + CRLF + rest;
    assert s == d + (CRLF + rest);
    DigitRunOf(d, CRLF + rest);
    assert s[..|d|] == d;
    assert s[|d|..|d| + 2] == CRLF;
    assert s[|d| + 2..] == rest;
    DigitsValueOfDecimal(n);
  }

  /** A bulk string reads back as its data, and the text after it is left alone. */
  lemma BulkRoundTrip(data: string, rest: string)
    ensures ParseBulk(BulkString(data) + rest) == Some((data, rest))
  {
    var d := NatToDecimal(|data|);
    var s := BulkString(data) + rest;
    assert s[1..] == d + CRLF + (data + CRLF + rest);
    ParseCountOf(|data|, data + CRLF + rest);
    var t := data + CRLF + rest;
    assert t[..|data|] == data && t[|data|..|data| + 2] == CRLF && t[|data| + 2..] == rest;
  }

  lemma {:induction false} BulksRoundTrip(elems: seq<string>, rest: string)
    ensures ParseBulks(Bulks(elems) + rest, |elems|) == Some((elems, rest))
  {
    if elems != [] {
      var t := Bulks(elems[1..]) + rest;
      BulksCons(elems, rest);
      BulkRoundTrip(elems[0], t);
      BulksRoundTrip(elems[1..], rest);
      ParseBulksCons(Bulks(elems) + rest, |elems|, elems[0], t, elems[1..], rest);
      assert [elems[0]] + elems[1..] == elems;
    } else {
      assert Bulks(elems) + rest == rest;
    }
  }

  lemma BulksCons(elems: seq<string>, rest: string)
    requires elems != []
    ensures Bulks(elems) + rest == BulkString(elems[0]) + (Bulks(elems[1..]) + rest)
  {
  }

  lemma ParseBulksCons(s: string, n: nat, e: string, t: string, es: seq<string>, u: string)
    requires n > 0 && ParseBulk(s) == Some((e, t)) && ParseBulks(t, n - 1) == Some((es, u))
    ensures ParseBulks(s, n) == Some(([e] + es, u))
  {
  }

  /** An array of bulk strings reads back as its elements, and the text after it is left alone. */
  lemma ArrayRoundTrip(elems: seq<string>, rest: string)
    ensures ParseArray(Array(elems) + rest) == Some((elems, rest))
  {
    var s := Array(elems) + rest;
    assert s[1..] == NatToDecimal(|elems|) + CRLF + (Bulks(elems) + rest);
    ParseCountOf(|elems|, Bulks(elems) + rest);
    BulksRoundTrip(elems, rest);
  }

  // ---------------------------------------------------------------------------------------
  // The commands the client sends.
  // ---------------------------------------------------------------------------------------

  /** `Array` of a few elements, spelled out. */
  lemma ArrayOfTwo(a: string, b: string)
    ensures Array([a, b]) == "*2\r\n" + BulkString(a) + BulkString(b)
  {
    BulksOfOne(b);
    assert Bulks([a, b]) == BulkString(a) + Bulks([b]) by {
      assert [a, b][1..] == [b];
    }
    assert "*" + NatToDecimal(2) + CRLF == "*2\r\n";
    Reassociate("*2\r\n", BulkString(a), BulkString(b));
  }

  lemma ArrayOfThree(a: string, b: string, c: string)
    ensures Array([a, b, c]) == "*3\r\n" + BulkString(a) + BulkString(b) + BulkString(c)
  {
    BulksOfOne(c);
    assert Bulks([b, c]) == BulkString(b) + Bulks([c]) by {
      assert [b, c][1..] == [c];
    }
    assert Bulks([a, b, c]) == BulkString(a) + Bulks([b, c]) by {
      assert [a, b, c][1..] == [b, c];
    }
    assert "*" + NatToDecimal(3) + CRLF == "*3\r\n";
    Reassociate("*3\r\n", BulkString(a), BulkString(b) + BulkString(c));
    Reassociate("*3\r\n" + BulkString(a), BulkString(b), BulkString(c));
  }

  lemma BulksOfOne(a: string)
    ensures Bulks([a]) == BulkString(a)
  {
    assert [a][1..] == [];
    assert BulkString(a) + "" == BulkString(a);
  }

  lemma Reassociate(h: string, a: string, b: string)
    ensures h + (a + b) == h + a + b
  {
  }

  /** The pieces of two bulk strings, written out one after the other. */
  lemma TwoBulks(h: string, a1: string, a2: string, a3: string, a4: string, a5: string,
    b1: string, b2: string, b3: string, b4: string, b5: string)
    ensures h + a1 + a2 + a3 + a4 + a5 + b1 + b2 + b3 + b4 + b5
      == h + (a1 + a2 + a3 + a4 + a5) + (b1 + b2 + b3 + b4 + b5)
  {
  }

  lemma SetHeader()
    ensures BulkString("SET") == "$3\r\nSET\r\n" && BulkString("GET") == "$3\r\nGET\r\n"
  {
    assert NatToDecimal(3) == "3";
  }

  /**
   * `send_set_command(key, value)`: the text the format string builds, which is the RESP
   * array of the three bulk strings SET, key and value.
   */
  function SetCommand(key: string, value: string): (c: string)
    ensures c == Array(["SET", key, value])
  {
    var head := "*3\r\n$3\r\nSET\r\n";
    var c := head + "$" + NatToDecimal(|key|) + "\r\n" + key + "\r\n"
      + "$" + NatToDecimal(|value|) + "\r\n" + value + "\r\n";
    TwoBulks(head, "$", NatToDecimal(|key|), CRLF, key, CRLF, "$", NatToDecimal(|value|), CRLF, value, CRLF);
    SetHeader();
    assert head == "*3\r\n" + BulkString("SET");
    ArrayOfThree("SET", key, value);
    c
  }

  /** `send_get_command(key)`: the RESP array of the two bulk strings GET and key. */
  function GetCommand(key: string): (c: string)
    ensures c == Array(["GET", key])
  {
    var head := "*2\r\n$3\r\nGET\r\n";
    var c := head + "$" + NatToDecimal(|key|) + "\r\n" + key + "\r\n";
    SetHeader();
    assert head == "*2\r\n" + BulkString("GET");
    ArrayOfTwo("GET", key);
    c
  }

  /** A server reading either command as a RESP array gets back the command word and its arguments. */
  lemma CommandsRoundTrip(key: string, value: string, rest: string)
    ensures ParseArray(SetCommand(key, value) + rest) == Some((["SET", key, value], rest))
    ensures ParseArray(GetCommand(key) + rest) == Some((["GET", key], rest))
  {
    ArrayRoundTrip(["SET", key, value], rest);
    ArrayRoundTrip(["GET", key], rest);
  }

  /** The GET command of the protocol description's example, byte for byte. */
  lemma GetCommandExample()
    ensures GetCommand("hello") == "*2\r\n$3\r\nGET\r\n$5\r\nhello\r\n"
  {
    HelloWorld();
    SetHeader();
    ArrayOfTwo("GET", "hello");
  }

  /** The SET command of the protocol description's example, byte for byte. */
  lemma SetCommandExample()
    ensures SetCommand("hello", "world") == "*3\r\n$3\r\nSET\r\n$5\r\nhello\r\n$5\r\nworld\r\n"
  {
    HelloWorld();
    SetHeader();
    ArrayOfThree("SET", "hello", "world");
  }

  lemma HelloWorld()
    ensures BulkString("hello") == "$5\r\nhello\r\n" && BulkString("world") == "$5\r\nworld\r\n"
  {
    assert NatToDecimal(5) == "5";
  }

  // ---------------------------------------------------------------------------------------
  // Reading a reply.
  // ---------------------------------------------------------------------------------------

  /** No CR directly followed by LF. */
  predicate NoCrlf(s: string)
  {
    forall i :: 0 <= i < |s| - 1 ==> !(s[i] == '\r' && s[i + 1] == '\n')
  }

  /**
   * `read_until(buf, "\r\n")` on a fresh `buf`: the input up to and including the first CRLF,
   * or all of it when the connection ends first; and the input left after it.
   */
  function ReadUntilCrlf(input: string): (r: (string, string))
    ensures r.0 + r.1 == input
    ensures NoCrlf(input) ==> r == (input, [])
  {
    if input == [] then ([], [])
    else if |input| >= 2 && input[..2] == CRLF then
      assert input[0] == '\r' && input[1] == '\n';
      assert CRLF + input[2..] == input;
      (CRLF, input[2..])
    else
      var (line, rest) := ReadUntilCrlf(input[1..]);
      assert NoCrlf(input) ==> NoCrlf(input[1..]) by {
        if NoCrlf(input) {
          forall i | 0 <= i < |input[1..]| - 1
            ensures !(input[1..][i] == '\r' && input[1..][i + 1] == '\n')
          {
            assert input[1..][i] == input[i + 1] && input[1..][i + 1] == input[i + 2];
          }
        }
      }
      assert [input[0]] + (line + rest) == input;
      ([input[0]] + line, rest)
  }

  /** A line without CRLF, ended by CRLF, is read up to that CRLF and no further. */
  lemma {:induction false} ReadLine(line: string, rest: string)
    requires NoCrlf(line)
    ensures ReadUntilCrlf(line + CRLF + rest) == (line + CRLF, rest)
  {
    var s := line + CRLF + rest;
    if line != [] {
      assert s[1..] == line[1..] + CRLF + rest;
      assert !(|s| >= 2 && s[..2] == CRLF) by {
        assert s[0] == line[0];
        if |line| >= 2 {
          assert s[1] == line[1];
          assert !(line[0] == '\r' && line[1] == '\n');
        } else {
          assert s[1] == '\r';
        }
      }
      ReadLine(line[1..], rest);
      assert [s[0]] + (line[1..] + CRLF) == line + CRLF;
    } else {
      assert s[..2] == CRLF;
    }
  }

  predicate IsSpace(c: char)
  {
    c == ' ' || c == '\t' || c == '\n' || c == 11 as char || c == 12 as char || c == '\r'
  }

  /** The white space `strtol`/`strtoul` skip before the number. */
  function SkipSpace(s: string): (t: string)
  {
    if s != [] && IsSpace(s[0]) then SkipSpace(s[1..]) else s
  }

  /** `std::stol`: None where it throws (no digits, or out of the range of `long`). */
  function Stol(s: string): (r: Option<int>)
    ensures r.Some? ==> LONG_MIN <= r.value <= LONG_MAX
  {
    match ParseLeadingInt(SkipSpace(s))
    case None => None
    case Some(v) => if LONG_MIN <= v <= LONG_MAX then Some(v) else None
  }

  /**
   * `std::stoul`: None where it throws (no digits, or a magnitude beyond `unsigned long`); a
   * negative number is negated modulo 2^64.
   */
  function Stoul(s: string): (r: Option<nat>)
    ensures r.Some? ==> r.value < U64
  {
    match ParseLeadingInt(SkipSpace(s))
    case None => None
    case Some(v) =>
      if v >= U64 || v <= -(U64 as int) then None
      else if v < 0 then Some(U64 + v)
      else Some(v)
  }

  lemma StolOf(i: int, rest: string)
    requires LONG_MIN <= i <= LONG_MAX && (rest == [] || !IsDigit(rest[0]))
    ensures Stol(IntToDecimal(i) + rest) == Some(i)
    ensures -(U64 as int) < i ==> Stoul(IntToDecimal(i) + rest) == Some(if i < 0 then U64 + i else i)
  {
    var s := IntToDecimal(i) + rest;
    assert s[0] == '-' || IsDigit(s[0]);
    assert SkipSpace(s) == s;
    ParseIntToDecimal(i, rest);
  }

  /**
   * What `RedisProtocolCodec::decode` ends in: a reply together with the input it leaves, or
   * one of the ways it does not return a reply.
   */
  datatype Decoded =
    | Reply(text: string, rest: string)
    | Unreachable  // a first byte other than '+' or '$' reaches `std::unreachable()`
    | Thrown       // `std::stol` throws on the length line
    | AssertFails  // the data line is not the announced length plus CRLF

  /**
   * `decode(reader)`: with no byte to read, the empty reply. A '+' reply is the '+' and its
   * line, CRLF included. A '$' reply reads a length line; length -1 is the null bulk string,
   * returned as read; any other length is followed by a data line that must be that long
   * plus CRLF, and the reply is the '$', the length line and the data line. A reply is always
   * exactly the text read.
   */
  function Decode(input: string): (r: Decoded)
    ensures r.Reply? ==> r.text + r.rest == input
    ensures input == [] ==> r == Reply("", [])
    ensures input != [] && input[0] != '+' && input[0] != '$' ==> r == Unreachable
  {
    if input == [] then Reply("", [])
    else if input[0] == '+' then
      var (line, rest) := ReadUntilCrlf(input[1..]);
      Reply("+" + line, rest)
    else if input[0] == '$' then
      assert "$" + input[1..] == input;
      DecodeBulkReply(input[1..])
    else Unreachable
  }

  /** The '$' branch of `decode`, on the text after the '$'. */
  function DecodeBulkReply(body: string): (r: Decoded)
    ensures r.Reply? ==> r.text + r.rest == "$" + body
  {
    var (lenLine, rest) := ReadUntilCrlf(body);
    match Stol(lenLine)
    case None => Thrown
    case Some(len) =>
      if len == -1 then Reply("$" + lenLine, rest)
      else DecodeDataLine("$" + lenLine, len, rest)
  }

  /**
   * The data line of a '$' reply whose length line, read as `len`, is already in `head`: the
   * line must be `len` bytes plus CRLF, by its size cast to `int`.
   */
  function DecodeDataLine(head: string, len: int, input: string): (r: Decoded)
    ensures r.Reply? ==> r.text + r.rest == head + input
  {
    var (msg, rest) := ReadUntilCrlf(input);
    if len != ToInt(|msg|) - 2 then AssertFails
    else
      assert head + msg + rest == head + (msg + rest);
      Reply(head + msg, rest)
  }

  /**
   * `static_cast<int>` of a size: the size modulo 2^32, read as a signed 32-bit number (the
   * conversion C++20 fixes); a size up to `INT_MAX` is kept as it is.
   */
  function ToInt(n: nat): (r: int)
    ensures -(INT_MAX + 1) <= r <= INT_MAX
    ensures n <= INT_MAX ==> r == n
  {
    if n % U32 <= INT_MAX then n % U32 else n % U32 - U32
  }

  /** `static_cast<int>` keeps a size's value modulo 2^32. */
  lemma ToIntModulo(n: nat)
    ensures (n - ToInt(n)) % U32 == 0
  {
    assert n == n / U32 * U32 + n % U32;
  }

  /** A simple string reply is read whole, and the input after it is left. */
  lemma DecodeSimple(s: string, rest: string)
    requires NoCrlf(s)
    ensures Decode("+" + s + CRLF + rest) == Reply("+" + s + CRLF, rest)
  {
    SimpleLayout(s, rest);
    ReadLine(s, rest);
  }

  lemma SimpleLayout(s: string, rest: string)
    ensures var input := "+" + s + CRLF + rest;
      input != [] && input[0] == '+' && input[1..] == s + CRLF + rest && "+" + (s + CRLF) == "+" + s + CRLF
  {
  }

  /** A bulk string reply whose data holds no CRLF is read whole, and the input after it is left. */
  lemma DecodeBulk(data: string, rest: string)
    requires NoCrlf(data) && |data| + 2 <= INT_MAX
    ensures Decode(BulkString(data) + rest) == Reply(BulkString(data), rest)
  {
    DecodeBulkOfLength(data, rest);
  }

  /**
   * A bulk string reply whose data holds no CRLF is read whole exactly when its data line,
   * CRLF included, is at most `INT_MAX` long; past that the size cast to `int` has wrapped and
   * the decoder's assertion fails.
   */
  lemma DecodeBulkOfLength(data: string, rest: string)
    requires NoCrlf(data) && |data| <= LONG_MAX
    ensures Decode(BulkString(data) + rest)
      == if |data| + 2 <= INT_MAX then Reply(BulkString(data), rest) else AssertFails
  {
    var d := NatToDecimal(|data|);
    assert BulkString(data) == "$" + d + CRLF + data + CRLF;
    DigitsNoCrlf(d);
    StolOf(|data|, CRLF);
    assert IntToDecimal(|data|) == d;
    DecodeLines(d, data, rest, |data|);
    BulkLayout(d, data, rest);
  }

  /**
   * A '$' reply with a length line and a data line is read up to its last CRLF when the data
   * line is as long as announced plus CRLF, by the size cast to `int`; otherwise the assertion fails.
   */
  lemma DecodeLines(lenText: string, msg: string, rest: string, len: int)
    requires NoCrlf(lenText) && NoCrlf(msg)
    requires Stol(lenText + CRLF) == Some(len) && len != -1
    ensures Decode("$" + lenText + CRLF + msg + CRLF + rest)
      == if len == ToInt(|msg| + 2) - 2 then Reply("$" + (lenText + CRLF) + (msg + CRLF), rest) else AssertFails
  {
    BulkLayout(lenText, msg, rest);
    ReadLine(lenText, msg + CRLF + rest);
    ReadLine(msg, rest);
  }

  /** Where the pieces of a bulk string reply lie, for any length text `d`. */
  lemma BulkLayout(d: string, data: string, rest: string)
    ensures var s := "$" + d + CRLF + data + CRLF + rest;
      s[0] == '$' && s[1..] == d + CRLF + (data + CRLF + rest)
      && "$" + (d + CRLF) + (data + CRLF) == "$" + d + CRLF + data + CRLF
      && s[1..|d| + 3] == d + CRLF && s[|d| + 3..] == data + CRLF + rest
      && s[..|d| + 2] == "$" + d + "\r"
  {
  }

  lemma DigitsNoCrlf(d: string)
    requires AllDigits(d)
    ensures NoCrlf(d) && '\n' !in d && '\n' !in "$" + d + "\r"
  {
    forall i | 0 <= i < |d| - 1 ensures !(d[i] == '\r' && d[i + 1] == '\n') {
      assert IsDigit(d[i]);
    }
    forall i | 0 <= i < |d| ensures d[i] != '\n' {
      assert IsDigit(d[i]);
    }
    assert forall i :: 0 <= i < |"$" + d + "\r"| ==> ("$" + d + "\r")[i] != '\n';
  }

  /** The null bulk string is read whole, and the input after it is left. */
  lemma DecodeNull(rest: string)
    ensures Decode("$-1\r\n" + rest) == Reply("$-1\r\n", rest)
  {
    NullPieces(rest);
    ReadLine("-1", rest);
    StolOf(-1, CRLF);
  }

  lemma NullPieces(rest: string)
    ensures var input := "$-1\r\n" + rest;
      input[0] == '$' && input[1..] == "-1" + CRLF + rest && "$" + ("-1" + CRLF) == "$-1\r\n"
    ensures IntToDecimal(-1) == "-1"
  {
    assert NatToDecimal(1) == "1";
  }

  // ---------------------------------------------------------------------------------------
  // The reply checks of `set` and `get`.
  // ---------------------------------------------------------------------------------------

  /** `set`: the reply is taken as a failure unless it is exactly `+OK\r\n`. */
  function SetFailed(response: string): bool
  {
    response != "+OK\r\n"
  }

  /**
   * Fed by the codec, `set` succeeds on the OK simple string and fails on any other simple
   * string, on any bulk string and on the null reply.
   */
  lemma SetReplies(s: string, data: string, rest: string)
    requires NoCrlf(s) && NoCrlf(data) && |data| + 2 <= INT_MAX
    ensures var r := Decode("+OK\r\n" + rest); r.Reply? && !SetFailed(r.text)
    ensures var r := Decode("+" + s + CRLF + rest); r.Reply? && (SetFailed(r.text) <==> s != "OK")
    ensures var r := Decode(BulkString(data) + rest); r.Reply? && SetFailed(r.text)
    ensures var r := Decode("$-1\r\n" + rest); r.Reply? && SetFailed(r.text)
  {
    DecodeSimple("OK", rest);
    OkLayout(s, rest);
    DecodeSimple(s, rest);
    DecodeBulk(data, rest);
    assert BulkString(data)[0] == '$';
    DecodeNull(rest);
  }

  lemma OkLayout(s: string, rest: string)
    ensures "+" + "OK" + CRLF == "+OK\r\n" && "+" + "OK" + CRLF + rest == "+OK\r\n" + rest
    ensures "+" + s + CRLF == "+OK\r\n" ==> s == "OK"
    ensures "$-1\r\n" != "+OK\r\n"
  {
    if "+" + s + CRLF == "+OK\r\n" {
      assert s == ("+" + s + CRLF)[1..3];
    }
    assert "$-1\r\n"[0] != "+OK\r\n"[0];
  }

  /** `s.find(c, i)`: the index of the first `c` at or after `i`. */
  function FindFrom(s: string, c: char, i: nat): (r: Option<nat>)
    requires i <= |s|
    ensures r.Some? ==> i <= r.value < |s| && s[r.value] == c
    ensures r.None? ==> forall j :: i <= j < |s| ==> s[j] != c
    decreases |s| - i
  {
    if i == |s| then None
    else if s[i] == c then Some(i)
    else FindFrom(s, c, i + 1)
  }

  /** `s.find(c)`: the index of the first `c`, or none (`npos`) when `c` does not occur. */
  function Find(s: string, c: char): (r: Option<nat>)
    ensures r.None? <==> c !in s
    ensures r.Some? ==> r.value < |s| && s[r.value] == c
  {
    FindFrom(s, c, 0)
  }

  /** `s.substr(pos, count)`: None where it throws (`pos` past the end); the count is clamped. */
  function Substr(s: string, pos: nat, count: nat): (r: Option<string>)
    ensures r.None? <==> pos > |s|
    ensures r.Some? ==> r.value == s[pos..if pos + count <= |s| then pos + count else |s|]
  {
    if pos > |s| then None
    else if pos + count <= |s| then Some(s[pos..pos + count])
    else Some(s[pos..])
  }

  /**
   * `get`, as written: the empty string for a reply shorter than 2 bytes, one not starting
   * with '$', or one without '\n'; otherwise the length after '$' read by `stoul`, and the
   * text from just after the first '\n' with `end + 1 + length` as the count, so the data's
   * closing CRLF comes along. The count is a `size_t` sum and wraps modulo 2^64. None where
   * `stoul` throws.
   */
  function GetAsWritten(response: string): (r: Option<string>)
    ensures |response| < 2 || response[0] != '$' || '\n' !in response ==> r == Some("")
  {
    if |response| < 2 || response[0] != '$' then Some("")
    else
      match Find(response, '\n')
      case None => Some("")
      case Some(end) =>
        match Stoul(Substr(response, 1, end + 1).value)
        case None => None
        case Some(payloadLen) => Substr(response, end + 1, (end + 1 + payloadLen) % U64)
  }

  /** Where the length line of a bulk string reply ends, for any digit text `d`. */
  lemma BulkLengthLine(d: string, data: string, rest: string)
    requires AllDigits(d)
    ensures var s := "$" + d + CRLF + data + CRLF + rest;
      |s| >= |d| + 5 && s[0] == '$' && Find(s, '\n') == Some(|d| + 2)
      && Substr(s, 1, |d| + 3) == Some(s[1..|d| + 4]) && s[1..|d| + 4] == d + s[|d| + 1..|d| + 4]
      && s[|d| + 1] == '\r'
      && s[|d| + 3..] == data + CRLF + rest
  {
    var s := "$" + d + CRLF + data + CRLF + rest;
    BulkLayout(d, data, rest);
    DigitsNoCrlf(d);
    assert s[|d| + 2] == '\n';
    FindFirst(s, '\n', |d| + 2);
    assert s[1..|d| + 4] == s[1..|d| + 1] + s[|d| + 1..|d| + 4];
    assert s[1..|d| + 1] == (d + CRLF)[..|d|] == d;
  }

  /** `get` as written on a reply whose length line is read as `n`. */
  lemma GetAsWrittenOn(s: string, end: nat, line: string, n: nat)
    requires |s| >= 2 && s[0] == '$' && Find(s, '\n') == Some(end)
    requires Substr(s, 1, end + 1) == Some(line) && Stoul(line) == Some(n)
    ensures GetAsWritten(s) == Substr(s, end + 1, (end + 1 + n) % U64)
    ensures end + 1 + n < U64 ==> GetAsWritten(s) == Substr(s, end + 1, end + 1 + n)
  {
    if end + 1 + n < U64 {
      NoWrap(end + 1 + n);
    }
  }

  /** A `size_t` sum below 2^64 does not wrap. */
  lemma NoWrap(x: nat)
    requires x < U64
    ensures x % U64 == x
  {
  }

  /** The corrected `get` on a reply whose length line is read as `n`. */
  lemma GetOn(s: string, end: nat, line: string, n: nat)
    requires |s| >= 2 && s[0] == '$' && Find(s, '\n') == Some(end)
    requires Substr(s, 1, end + 1) == Some(line) && Stoul(line) == Some(n)
    ensures Get(s) == Substr(s, end + 1, n)
  {
  }

  /** A tail that starts with `data` has `data` as its substring of that length. */
  lemma SliceOfTail(s: string, k: nat, data: string, t: string)
    requires k <= |s| && s[k..] == data + t
    ensures Substr(s, k, |data|) == Some(data)
  {
    assert s[k..k + |data|] == s[k..][..|data|];
  }

  /** The first `c` is where it occurs with none before it. */
  lemma FindFirst(s: string, c: char, k: nat)
    requires k < |s| && s[k] == c && c !in s[..k]
    ensures Find(s, c) == Some(k)
  {
    forall j | 0 <= j < k ensures s[j] != c {
      assert s[..k][j] == s[j];
    }
    FindFromFirst(s, c, 0, k);
  }

  lemma {:induction false} FindFromFirst(s: string, c: char, i: nat, k: nat)
    requires i <= k < |s| && s[k] == c
    requires forall j :: i <= j < k ==> s[j] != c
    ensures FindFrom(s, c, i) == Some(k)
    decreases k - i
  {
    if i < k {
      FindFromFirst(s, c, i + 1, k);
    }
  }

  /** `stoul` reads a length written in decimal and followed by a CR back as that length. */
  lemma StoulOfLength(n: nat, t: string)
    requires n < U64 && t != [] && t[0] == '\r'
    ensures Stoul(NatToDecimal(n) + t) == Some(n)
  {
    var s := NatToDecimal(n) + t;
    assert IsDigit(s[0]) && SkipSpace(s) == s;
    assert IntToDecimal(n) == NatToDecimal(n);
    ParseIntToDecimal(n, t);
  }

  /** `stoul` reads the length line of a bulk string reply as the data's length. */
  lemma LengthLine(data: string, rest: string)
    requires |data| < U64
    ensures var d := NatToDecimal(|data|);
      Stoul(("$" + d + CRLF + data + CRLF + rest)[1..|d| + 4]) == Some(|data|)
  {
    var d := NatToDecimal(|data|);
    var s := "$" + d + CRLF + data + CRLF + rest;
    BulkLengthLine(d, data, rest);
    StoulOfLength(|data|, s[|d| + 1..|d| + 4]);
  }

  /**
   * Reading a bulk string whose size fits a `size_t`, `get` as written returns its data and
   * the closing CRLF.
   */
  lemma GetAsWrittenKeepsCrlf(data: string)
    requires |BulkString(data)| < U64
    ensures GetAsWritten(BulkString(data)) == Some(data + CRLF)
  {
    var d := NatToDecimal(|data|);
    var s := BulkString(data);
    assert s == "$" + d + CRLF + data + CRLF + "" && |s| == |d| + |data| + 5;
    BulkReply(data, "", s);
    GetAsWrittenOn(s, |d| + 2, s[1..|d| + 4], |data|);
    assert s[|d| + 3..] == data + CRLF;
  }

  /**
   * The reply `$-1\nab\r\n` is decoded whole, its length line being read as -1; `get` as
   * written reads that length as 2^64 - 1, the count `end + 1 + length` wraps to 3 and `ab\r`
   * comes back, where the corrected `get` clamps the count and returns the rest, `ab\r\n`.
   */
  lemma GetWrappedCount()
    ensures Decode("$-1\nab\r\n") == Reply("$-1\nab\r\n", "")
    ensures GetAsWritten("$-1\nab\r\n") == Some("ab\r") && Get("$-1\nab\r\n") == Some("ab\r\n")
  {
    var s := "$-1\nab\r\n";
    assert s[4..7] == "ab\r" && s[4..] == "ab\r\n";
    WrapOnce(3);
    assert (3 + 1 + (U64 - 1)) % U64 == 3;
    WrappedReplyDecoded(s, "-1\nab");
    WrappedLengthLine(s);
    GetAsWrittenOn(s, 3, s[1..5], U64 - 1);
    GetOn(s, 3, s[1..5], U64 - 1);
  }

  /** A count of 2^64 or more, below 2^65, wraps to the count less 2^64. */
  lemma WrapOnce(x: nat)
    requires x < U64
    ensures (x + U64) % U64 == x
  {
  }

  /**
   * In the reply `$-1\nab\r\n` the first '\n' is at index 3, and `stoul` reads the four bytes
   * after the '$' as 2^64 - 1.
   */
  lemma WrappedLengthLine(s: string)
    requires s == "$-1\nab\r\n"
    ensures |s| == 8 && s[0] == '$' && Find(s, '\n') == Some(3)
    ensures Substr(s, 1, 4) == Some(s[1..5]) && Stoul(s[1..5]) == Some(U64 - 1)
  {
    assert s[..3] == "$-1" && s[3] == '\n';
    FindFirst(s, '\n', 3);
    NullPieces("");
    assert s[1..5] == IntToDecimal(-1) + "\na";
    StolOf(-1, "\na");
  }

  /** The reply `$-1\nab\r\n` is one line, whose length text `stol` reads as -1. */
  lemma WrappedReplyDecoded(s: string, line: string)
    requires line == "-1\nab" && s == "$" + line + CRLF
    ensures Decode(s) == Reply(s, "")
  {
    WrappedLine(line);
    DecodeMinusOne(line, []);
    assert s + [] == s;
  }

  /** The line `-1\nab` holds no CRLF, and `stol` reads it, with its CRLF, as -1. */
  lemma WrappedLine(line: string)
    requires line == "-1\nab"
    ensures NoCrlf(line) && Stol(line + CRLF) == Some(-1)
  {
    forall k | 0 <= k < |line| - 1 ensures !(line[k] == '\r' && line[k + 1] == '\n') {
      assert line[k] != '\r';
    }
    NullPieces("");
    assert line + CRLF == IntToDecimal(-1) + "\nab\r\n";
    StolOf(-1, "\nab\r\n");
  }

  /** A '$' reply whose length line `stol` reads as -1 is that line alone. */
  lemma DecodeMinusOne(line: string, rest: string)
    requires NoCrlf(line) && Stol(line + CRLF) == Some(-1)
    ensures Decode("$" + line + CRLF + rest) == Reply("$" + line + CRLF, rest)
  {
    var s := "$" + line + CRLF + rest;
    assert s[1..] == line + CRLF + rest;
    ReadLine(line, rest);
    assert "$" + (line + CRLF) == "$" + line + CRLF;
  }

  /** The reply `$5\r\nhello\r\n` gives `hello\r\n` rather than `hello`. */
  lemma GetHelloAsWritten()
    ensures GetAsWritten("$5\r\nhello\r\n") == Some("hello\r\n")
  {
    HelloWorld();
    assert |BulkString("hello")| == 11;
    GetAsWrittenKeepsCrlf("hello");
    assert "hello" + CRLF == "hello\r\n";
  }

  /**
   * `get`, corrected: as written, but with the length itself as the count, so the reply's
   * data and nothing after it is returned.
   */
  function Get(response: string): (r: Option<string>)
    ensures |response| < 2 || response[0] != '$' || '\n' !in response ==> r == Some("")
  {
    if |response| < 2 || response[0] != '$' then Some("")
    else
      match Find(response, '\n')
      case None => Some("")
      case Some(end) =>
        match Stoul(Substr(response, 1, end + 1).value)
        case None => None
        case Some(payloadLen) => Substr(response, end + 1, payloadLen)
  }

  /** Reading a bulk string, the corrected `get` returns exactly its data, whatever follows it. */
  lemma GetRoundTrip(data: string, rest: string)
    requires |data| < U64
    ensures Get(BulkString(data) + rest) == Some(data)
  {
    var d := NatToDecimal(|data|);
    var s := BulkString(data) + rest;
    assert s == "$" + d + CRLF + data + CRLF + rest;
    BulkReply(data, rest, s);
    SliceOfTail(s, |d| + 3, data, CRLF + rest);
    GetOn(s, |d| + 2, s[1..|d| + 4], |data|);
  }

  /** How `get` sees a bulk string reply `s`: its length line, and the data after it. */
  lemma BulkReply(data: string, rest: string, s: string)
    requires |data| < U64 && s == "$" + NatToDecimal(|data|) + CRLF + data + CRLF + rest
    ensures var d := NatToDecimal(|data|);
      |s| >= 2 && s[0] == '$' && Find(s, '\n') == Some(|d| + 2)
      && Substr(s, 1, |d| + 3) == Some(s[1..|d| + 4]) && Stoul(s[1..|d| + 4]) == Some(|data|)
      && s[|d| + 3..] == data + CRLF + rest
  {
    BulkLengthLine(NatToDecimal(|data|), data, rest);
    LengthLine(data, rest);
  }

  /** On the null reply `$-1\r\n` both versions of `get` return the empty string. */
  lemma GetNull()
    ensures Get("$-1\r\n") == Some("") && GetAsWritten("$-1\r\n") == Some("")
  {
    var s := "$-1\r\n";
    NullLengthLine(s);
    GetOn(s, 4, s[1..5], U64 - 1);
    GetAsWrittenOn(s, 4, s[1..5], U64 - 1);
    assert s[5..] == "";
  }

  /** The null reply's length line ends at index 4 and `stoul` reads -1 there as 2^64 - 1. */
  lemma NullLengthLine(s: string)
    requires s == "$-1\r\n"
    ensures |s| == 5 && s[0] == '$' && Find(s, '\n') == Some(4)
    ensures Substr(s, 1, 5) == Some(s[1..5]) && Stoul(s[1..5]) == Some(U64 - 1)
  {
    assert s[..4] == "$-1\r" && s[4] == '\n';
    FindFirst(s, '\n', 4);
    NullPieces("");
    assert s[1..5] == IntToDecimal(-1) + CRLF;
    StolOf(-1, CRLF);
  }

  /**
   * A GET round trip over the codec: the command a server reads back is GET with the key,
   * and a bulk string reply whose data holds no CRLF comes back to the caller as that data.
   */
  lemma GetExchange(key: string, data: string, rest: string)
    requires NoCrlf(data) && |data| + 2 <= INT_MAX
    ensures ParseArray(GetCommand(key)) == Some((["GET", key], ""))
    ensures var r := Decode(BulkString(data) + rest); r.Reply? && Get(r.text) == Some(data)
  {
    CommandsRoundTrip(key, "", "");
    assert GetCommand(key) + "" == GetCommand(key);
    DecodeBulk(data, rest);
    GetRoundTrip(data, "");
    assert BulkString(data) + "" == BulkString(data);
  }
}
