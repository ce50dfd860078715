/**
 * `zedio::Error`: the library's own error codes (consecutive from 8000), their message
 * table, `make_error`, and the `std::formatter<Error>` specialisation.
 */
module Errors {
  import opened Wrappers
  import opened Decimal

  datatype ErrorCode =
    | EmptySqe
    | InvalidAddresses
    | ClosedChannel
    | UnexpectedEOF
    | WriteZero
    | TooLongTime
    | PassedTime
    | InvalidSocketType
    | ReuniteFailed

  const FIRST_CODE: int := 8000

  /** The enumerator's value: EmptySqe is 8000 and each later enumerator is one more. */
  function Code(c: ErrorCode): (v: int)
    ensures FIRST_CODE <= v < FIRST_CODE + 9
  {
    match c
    case EmptySqe => 8000
    case InvalidAddresses => 8001
    case ClosedChannel => 8002
    case UnexpectedEOF => 8003
    case WriteZero => 8004
    case TooLongTime => 8005
    case PassedTime => 8006
    case InvalidSocketType => 8007
    case ReuniteFailed => 8008
  }

  /** The enumerator an int names, if any: the inverse of `Code`. */
  function FromCode(v: int): (r: Option<ErrorCode>)
    ensures r.Some? <==> FIRST_CODE <= v < FIRST_CODE + 9
    ensures r.Some? ==> Code(r.value) == v
  {
    if v == 8000 then Some(EmptySqe)
    else if v == 8001 then Some(InvalidAddresses)
    else if v == 8002 then Some(ClosedChannel)
    else if v == 8003 then Some(UnexpectedEOF)
    else if v == 8004 then Some(WriteZero)
    else if v == 8005 then Some(TooLongTime)
    else if v == 8006 then Some(PassedTime)
    else if v == 8007 then Some(InvalidSocketType)
    else if v == 8008 then Some(ReuniteFailed)
    else None
  }

  /** Every enumerator is found again from its value, so no two share a value. */
  lemma CodeRoundTrip(c: ErrorCode)
    ensures FromCode(Code(c)) == Some(c)
  {
    match c
    case EmptySqe =>
    case InvalidAddresses =>
    case ClosedChannel =>
    case UnexpectedEOF =>
    case WriteZero =>
    case TooLongTime =>
    case PassedTime =>
    case InvalidSocketType =>
    case ReuniteFailed =>
  }

  function KnownMessage(c: ErrorCode): (m: string)
    ensures |m| > 0
  {
    match c
    case EmptySqe => "No sqe is available"
    case InvalidAddresses => "Invalid addresses"
    case ClosedChannel => "Channel has closed"
    case UnexpectedEOF => "Read EOF too early"
    case WriteZero => "Write return zero"
    case TooLongTime => "Time is too long"
    case PassedTime => "Time has passed"
    case InvalidSocketType => "Invalid socket type"
    case ReuniteFailed => "Tried to reunite halves that are not from the same socket"
  }

  /** An error holds a plain int: one of the codes above, or an errno value. */
  datatype Error = Error(value: int)

  /**
   * `Error::message`: the fixed text for the library's own codes; every other value is
   * described by the C library's `strerror`, which is passed in.
   */
  function Message(e: Error, strerror: int -> string): (m: string)
    ensures FromCode(e.value).Some? ==> |m| > 0
    ensures FromCode(e.value).None? ==> m == strerror(e.value)
  {
    match FromCode(e.value)
    case Some(c) => KnownMessage(c)
    case None => strerror(e.value)
  }

  /** Different library codes have different messages. */
  lemma KnownMessagesDistinct(c1: ErrorCode, c2: ErrorCode)
    requires c1 != c2
    ensures KnownMessage(c1) != KnownMessage(c2)
  {
  }

  /** `make_error` asserts the value is not negative. */
  function MakeError(err: int): (e: Error)
    requires err >= 0
    ensures e.value == err && e.value >= 0
  {
    Error(err)
  }

  datatype FormatError = InvalidFormatSpecifier

  /**
   * `formatter<Error>::parse` on the text after the ':' of a replacement field: returns
   * the position where it stops. An empty spec or one that starts with '}' stops at once;
   * otherwise one character is skipped and the next must be '}' or the end, or it throws.
   */
  function ParseSpec(spec: string): (r: Result<nat, FormatError>)
    ensures r.Ok? <==> |spec| <= 1 || spec[0] == '}' || spec[1] == '}'
    ensures r.Ok? ==> r.value <= 1 && r.value <= |spec|
    ensures r.Ok? && r.value < |spec| ==> spec[r.value] == '}'
  {
    if |spec| == 0 || spec[0] == '}' then Ok(0)
    else if 1 < |spec| && spec[1] != '}' then Err(InvalidFormatSpecifier)
    else Ok(1)
  }

  /** `formatter<Error>::format`: `"<message> (error <value>)"`. */
  function Format(e: Error, strerror: int -> string): (s: string)
    ensures var m := Message(e, strerror); |s| > |m| && s[..|m|] == m && s[|s| - 1] == ')'
  {
    Message(e, strerror) + " (error " + IntToDecimal(e.value) + ")"
  }

  /** The formatted text starts with the message and its value can be read back after it. */
  lemma FormatShowsCode(e: Error, strerror: int -> string)
    ensures var m := Message(e, strerror);
      var s := Format(e, strerror);
      |s| > |m| + 8 && s[..|m|] == m && s[|m|..|m| + 8] == " (error "
      && ParseLeadingInt(s[|m| + 8..]) == Some(e.value)
  {
    CodeAfterText(Message(e, strerror), e.value);
  }

  /** Any text followed by " (error ", a value and ")": the value reads back after the text. */
  lemma CodeAfterText(m: string, v: int)
    ensures var s := m + " (error " + IntToDecimal(v) + ")";
      |s| > |m| + 8 && s[..|m|] == m && s[|m|..|m| + 8] == " (error "
      && ParseLeadingInt(s[|m| + 8..]) == Some(v)
  {
    var t := IntToDecimal(v) + ")";
    ThreeParts(m, " (error ", t);
    assert m + " (error " + IntToDecimal(v) + ")" == m + " (error " + t;
    ParseIntToDecimal(v, ")");
  }

  /** The three parts of a concatenation are found again at their offsets. */
  lemma ThreeParts(a: string, b: string, c: string)
    ensures var s := a + b + c;
      s[..|a|] == a && s[|a|..|a| + |b|] == b && s[|a| + |b|..] == c
  {
  }
}
