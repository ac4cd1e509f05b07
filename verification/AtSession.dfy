/** The AT command session: buffered line reading and command responses. */
module AtSession {
  import opened Wrappers
  import opened Bytes
  import opened Text

  const LF: byte := 0x0A
  const CR: byte := 0x0D
  const MAX_LINE_LEN: nat := 256
  const MAX_INFO_LINES: nat := 16

  datatype Error = NotReady | NotUtf8 | LineTooLong | Timeout | Transport | UnexpectedResponse

  // ---- Final result codes ----

  const OK_LINE: seq<byte> := [79, 75]
  const ERROR_LINE: seq<byte> := [69, 82, 82, 79, 82]
  const CME_PREFIX: seq<byte> := [43, 67, 77, 69, 32, 69, 82, 82, 79, 82, 58, 32]
  const CMS_PREFIX: seq<byte> := [43, 67, 77, 83, 32, 69, 82, 82, 79, 82, 58, 32]
  const U32_LIMIT: nat := 0x1_0000_0000

  datatype Response = Success | Failure | CmeError(code: nat) | CmsError(code: nat)

  predicate IsDigit(b: byte) {
    0x30 <= b <= 0x39
  }

  ghost predicate AllDigits(s: seq<byte>) {
    forall k :: 0 <= k < |s| ==> IsDigit(s[k])
  }

  /** The number a run of digits writes in base ten. */
  ghost function Decimal(s: seq<byte>): nat
    requires AllDigits(s)
  {
    if s == [] then 0 else 10 * Decimal(s[..|s| - 1]) + (s[|s| - 1] - 0x30) as nat
  }

  ghost function DecimalSpec(s: seq<byte>): Option<nat> {
    if s != [] && AllDigits(s) && Decimal(s) < U32_LIMIT then Some(Decimal(s)) else None
  }

  lemma {:induction false} DecimalGrows(s: seq<byte>, n: nat)
    requires AllDigits(s) && n <= |s|
    ensures Decimal(s[..n]) <= Decimal(s)
    decreases |s|
  {
    if n < |s| {
      DecimalGrows(s[..|s| - 1], n);
      assert s[..|s| - 1][..n] == s[..n];
    } else {
      assert s[..n] == s;
    }
  }

  /** Checked arithmetic gives up at the first overflow, and that is exactly when the
      whole number does not fit. */
  method ParseDecimalU32(input: seq<byte>) returns (r: Option<nat>)
    ensures r == DecimalSpec(input)
  {
    if input == [] {
      return None;
    }
    var value := 0;
    for i := 0 to |input|
      invariant AllDigits(input[..i]) && value == Decimal(input[..i]) && value < U32_LIMIT
    {
      if !IsDigit(input[i]) {
        return None;
      }
      assert input[..i + 1][..i] == input[..i];
      assert Decimal(input[..i + 1]) == 10 * value + (input[i] - 0x30) as nat;
      if AllDigits(input) {
        DecimalGrows(input, i + 1);
      }
      if 10 * value >= U32_LIMIT {
        return None;
      }
      if 10 * value + (input[i] - 0x30) as nat >= U32_LIMIT {
        return None;
      }
      value := 10 * value + (input[i] - 0x30) as nat;
    }
    assert input[..|input|] == input;
    r := Some(value);
  }

  // A code that is no clean number is a plain failure.
  ghost function FinalSpec(line: seq<byte>): Option<Response> {
    if line == OK_LINE then Some(Success)
    else if line == ERROR_LINE then Some(Failure)
    else if CME_PREFIX <= line then
      var code := DecimalSpec(line[|CME_PREFIX|..]);
      Some(if code.Some? then CmeError(code.value) else Failure)
    else if CMS_PREFIX <= line then
      var code := DecimalSpec(line[|CMS_PREFIX|..]);
      Some(if code.Some? then CmsError(code.value) else Failure)
    else None
  }

  method ParseFinalResult(line: seq<byte>) returns (r: Option<Response>)
    ensures r == FinalSpec(line)
  {
    if line == OK_LINE {
      return Some(Success);
    }
    if line == ERROR_LINE {
      return Some(Failure);
    }
    if CME_PREFIX <= line {
      var code := ParseDecimalU32(line[|CME_PREFIX|..]);
      return Some(if code.Some? then CmeError(code.value) else Failure);
    }
    if CMS_PREFIX <= line {
      var code := ParseDecimalU32(line[|CMS_PREFIX|..]);
      return Some(if code.Some? then CmsError(code.value) else Failure);
    }
    r := None;
  }

  // ---- What the result codes say ----

  /** A number in decimal, without leading zeros. */
  ghost function Written(n: nat): seq<byte> {
    (if n < 10 then [] else Written(n / 10)) + [0x30 + n % 10]
  }

  lemma {:induction false} ReadBack(n: nat)
    ensures Written(n) != [] && AllDigits(Written(n)) && Decimal(Written(n)) == n
  {
    LastDigit(n);
    if n < 10 {
      OneMore(Written(n), [], 0, n);
    } else {
      ReadBack(n / 10);
      OneMore(Written(n), Written(n / 10), n / 10, n % 10);
    }
  }

  lemma LastDigit(n: nat)
    ensures n < 10 ==> Written(n) == [] + [0x30 + n]
    ensures n >= 10 ==> n == 10 * (n / 10) + n % 10 && Written(n) == Written(n / 10) + [0x30 + n % 10]
  {
  }

  lemma OneMore(s: seq<byte>, t: seq<byte>, q: nat, digit: nat)
    requires digit < 10 && s == t + [0x30 + digit] && AllDigits(t) && Decimal(t) == q
    ensures s != [] && AllDigits(s) && Decimal(s) == 10 * q + digit
  {
    assert s[..|s| - 1] == t;
  }

  lemma Spelt()
    ensures OK_LINE == Ascii("OK") && ERROR_LINE == Ascii("ERROR")
    ensures CME_PREFIX == Ascii("+CME ERROR: ") && CMS_PREFIX == Ascii("+CMS ERROR: ")
  {
  }

  /** Four kinds of line end a command, and OK alone means success. */
  lemma FinalLinesExactly(line: seq<byte>)
    ensures FinalSpec(line).Some?
            <==> line == Ascii("OK") || line == Ascii("ERROR") || Ascii("+CME ERROR: ") <= line || Ascii("+CMS ERROR: ") <= line
    ensures FinalSpec(line) == Some(Success) <==> line == Ascii("OK")
    ensures line == Ascii("ERROR") ==> FinalSpec(line) == Some(Failure)
  {
    Spelt();
    assert OK_LINE[0] == 79 && ERROR_LINE[0] == 69;
  }

  /** Every code is reported as the number it is and under its own kind if it fits 32 bits,
      and as a plain failure otherwise. */
  lemma CodesComeBack(n: nat)
    ensures FinalSpec(Ascii("+CME ERROR: ") + Written(n)) == Some(if n < 0x1_0000_0000 then CmeError(n) else Failure)
    ensures FinalSpec(Ascii("+CMS ERROR: ") + Written(n)) == Some(if n < 0x1_0000_0000 then CmsError(n) else Failure)
  {
    Spelt();
    ReadBack(n);
    assert (CME_PREFIX + Written(n))[|CME_PREFIX|..] == Written(n);
    assert (CMS_PREFIX + Written(n))[|CMS_PREFIX|..] == Written(n);
    assert (CME_PREFIX + Written(n))[0] == 43 && (CMS_PREFIX + Written(n))[0] == 43;
    assert (CMS_PREFIX + Written(n))[3] == 83 && CME_PREFIX[3] == 69;
  }

  // ---- Lines ----

  /** The index of the first line feed, or the length. */
  function FirstLf(s: seq<byte>): (k: nat)
    ensures k <= |s| && LF !in s[..k] && (k < |s| ==> s[k] == LF)
  {
    if s == [] || s[0] == LF then 0
    else
      var k := 1 + FirstLf(s[1..]);
      assert s[..k] == [s[0]] + s[1..][..k - 1];
      k
  }

  function StripCr(line: seq<byte>): seq<byte> {
    if line != [] && line[|line| - 1] == CR then line[..|line| - 1] else line
  }

  /** What the octets before a line feed read as. */
  ghost function Decode(line: seq<byte>): Result<seq<byte>, Error> {
    if IsUtf8(StripCr(line)) then Ok(StripCr(line)) else Err(NotUtf8)
  }

  /** What a pass of the reader meets when it needs more: an octet, an empty read, a failing
      channel, or the end of its time. */
  datatype Arrival = Octet(octet: byte) | Empty | Broken | Expiry

  /** Octets received but not yet returned, and what will be met from here on; when the
      list is used up every read is empty. */
  datatype Link = Link(buf: seq<byte>, inbound: seq<Arrival>)

  ghost function ReadSpec(l: Link): (r: (Result<seq<byte>, Error>, Link))
    ensures |r.1.inbound| <= |l.inbound|
    decreases |l.inbound|
  {
    var k := FirstLf(l.buf);
    if k < |l.buf| then (Decode(l.buf[..k]), l.(buf := l.buf[k + 1..]))
    else if |l.buf| >= MAX_LINE_LEN then (Err(LineTooLong), l.(buf := []))
    else if l.inbound == [] then (Err(NotReady), l)
    else match l.inbound[0]
      case Expiry => (Err(Timeout), Link([], l.inbound[1..]))
      case Broken => (Err(Transport), l.(inbound := l.inbound[1..]))
      case Empty => (Err(NotReady), l.(inbound := l.inbound[1..]))
      case Octet(b) => ReadSpec(Link(l.buf + [b], l.inbound[1..]))
  }

  ghost predicate Ready(l: Link) {
    LF !in l.buf && |l.buf| < MAX_LINE_LEN
  }

  // Just after a receive: the last octet is a line feed, or the buffer is full.
  ghost predicate Full(l: Link) {
    && 0 < |l.buf| <= MAX_LINE_LEN && LF !in l.buf[..|l.buf| - 1]
    && (l.buf[|l.buf| - 1] == LF || |l.buf| == MAX_LINE_LEN)
  }

  lemma FullLf(l: Link)
    ensures Ready(l) ==> FirstLf(l.buf) == |l.buf|
    ensures Full(l) ==> FirstLf(l.buf) == if l.buf[|l.buf| - 1] == LF then |l.buf| - 1 else |l.buf|
  {
    var n := |l.buf| - 1;
    forall m | 0 <= m < n && Full(l) ensures l.buf[m] != LF {
      assert l.buf[..n][m] == l.buf[m];
    }
  }

  datatype CommandResponse = CommandResponse(info: seq<seq<byte>>, result: Response)

  class Session {
    var rxBuf: seq<byte>
    var inbound: seq<Arrival>
    var outbound: seq<byte>

    ghost function View(): Link
      reads this
    {
      Link(rxBuf, inbound)
    }

    constructor (incoming: seq<Arrival>)
      ensures View() == Link([], incoming) && outbound == [] && Ready(View())
    {
      rxBuf, inbound, outbound := [], incoming, [];
    }

    // Drains the buffer through the line feed at `pos`.
    method TakeLine(pos: nat) returns (r: Result<seq<byte>, Error>)
      requires pos < |rxBuf|
      modifies this`rxBuf
      ensures r == Decode(old(rxBuf[..pos])) && rxBuf == old(rxBuf[pos + 1..])
    {
      var line := rxBuf[..pos + 1];
      rxBuf := rxBuf[pos + 1..];
      line := line[..|line| - 1];
      assert line == old(rxBuf[..pos]);
      if line != [] && line[|line| - 1] == CR {
        line := line[..|line| - 1];
      }
      var valid := CheckUtf8(line);
      r := if valid then Ok(line) else Err(NotUtf8);
    }

    method ReadLine() returns (r: Result<seq<byte>, Error>)
      requires Ready(View())
      modifies this`rxBuf, this`inbound
      ensures (r, View()) == ReadSpec(old(View())) && Ready(View())
      ensures r == Err(NotReady) || |inbound| < |old(inbound)|
    {
      while true
        invariant ReadSpec(View()) == ReadSpec(old(View()))
        invariant Ready(View()) || Full(View())
        invariant |inbound| <= |old(inbound)|
        invariant Ready(View()) || |inbound| < |old(inbound)|
        decreases |inbound|
      {
        FullLf(View());
        var pos := FirstLf(rxBuf);
        if pos < |rxBuf| {
          r := TakeLine(pos);
          return;
        }
        if |rxBuf| >= MAX_LINE_LEN {
          rxBuf := [];
          return Err(LineTooLong);
        }
        if inbound == [] {
          return Err(NotReady);
        }
        var met := inbound[0];
        inbound := inbound[1..];
        if met.Expiry? {
          rxBuf := [];
          return Err(Timeout);
        }
        if met.Broken? {
          return Err(Transport);
        }
        if met.Empty? {
          return Err(NotReady);
        }
        rxBuf := rxBuf + [met.octet];
      }
    }

    // `accepted` is whether the channel takes the command.
    method SendCommand(cmd: seq<byte>, accepted: bool) returns (r: Result<CommandResponse, Error>)
      requires Ready(View())
      modifies this
      ensures Ready(View())
      ensures !accepted ==> r == Err(Transport) && outbound == old(outbound) && View() == old(View())
      ensures accepted ==>
                && outbound == old(outbound) + (cmd + [CR, LF])
                && exists n :: Concludes(Reads(old(View()), n), r) && View() == After(old(View()), n)
    {
      if !accepted {
        return Err(Transport);
      }
      outbound := outbound + (cmd + [CR, LF]);
      ghost var n;
      r, n := Collect();
    }

    // The response loop, which makes n got.
    method Collect() returns (r: Result<CommandResponse, Error>, ghost n: nat)
      requires Ready(View())
      modifies this`rxBuf, this`inbound
      ensures Ready(View()) && Concludes(Reads(old(View()), n), r) && View() == After(old(View()), n)
    {
      ghost var l := View();
      var info: seq<seq<byte>> := [];
      n := 0;
      while true
        invariant Ready(View()) && View() == After(l, n) && Pending(Reads(l, n), info)
        decreases |inbound|
      {
        if |info| >= MAX_INFO_LINES {
          TooMany(Reads(l, n), info);
          r := Err(UnexpectedResponse);
          return;
        }
        ghost var got := Reads(l, n);
        var line := ReadLine();
        OneMoreRead(l, n);
        n := n + 1;
        if line.Err? {
          LastRead(got, info, line);
          r := Err(line.error);
          return;
        }
        if line.value == [] {
          BlankDecidesNothing();
          GoesOn(got, info, line);
          continue;
        }
        var result := ParseFinalResult(line.value);
        if result.Some? {
          LastRead(got, info, line);
          r := Ok(CommandResponse(info, result.value));
          return;
        }
        GoesOn(got, info, line);
        info := info + [line.value];
      }
    }
  }

  // ---- Successive reads ----

  /** The link after n got, and their results. */
  ghost function After(l: Link, n: nat): Link {
    if n == 0 then l else ReadSpec(After(l, n - 1)).1
  }

  ghost function Reads(l: Link, n: nat): (r: seq<Result<seq<byte>, Error>>)
    ensures |r| == n
  {
    if n == 0 then [] else Reads(l, n - 1) + [ReadSpec(After(l, n - 1)).0]
  }

  lemma OneMoreRead(l: Link, n: nat)
    ensures After(l, n + 1) == ReadSpec(After(l, n)).1
    ensures Reads(l, n + 1) == Reads(l, n) + [ReadSpec(After(l, n)).0]
  {
  }

  ghost predicate Undecided(r: Result<seq<byte>, Error>) {
    r.Ok? && FinalSpec(r.value).None?
  }

  // Lines only, none of them a final result.
  ghost predicate Quiet(got: seq<Result<seq<byte>, Error>>) {
    forall m :: 0 <= m < |got| ==> Undecided(got[m])
  }

  ghost function NonBlank(r: Result<seq<byte>, Error>): seq<seq<byte>> {
    if r.Ok? && r.value != [] then [r.value] else []
  }

  /** The non-blank lines in order. */
  ghost function Info(got: seq<Result<seq<byte>, Error>>): seq<seq<byte>> {
    if got == [] then [] else Info(got[..|got| - 1]) + NonBlank(got[|got| - 1])
  }

  lemma InfoSnoc(got: seq<Result<seq<byte>, Error>>, r: Result<seq<byte>, Error>)
    ensures Info(got + [r]) == Info(got) + NonBlank(r) && (got + [r])[..|got|] == got
  {
    assert (got + [r])[..|got|] == got;
  }

  // Reads that have not ended a command, with the lines collected from them.
  ghost predicate Pending(got: seq<Result<seq<byte>, Error>>, info: seq<seq<byte>>) {
    && Quiet(got) && info == Info(got) && |info| <= MAX_INFO_LINES
    && (|info| == MAX_INFO_LINES ==> got != [] && |Info(got[..|got| - 1])| < MAX_INFO_LINES)
  }

  lemma GoesOn(got: seq<Result<seq<byte>, Error>>, info: seq<seq<byte>>, line: Result<seq<byte>, Error>)
    requires Pending(got, info) && |info| < MAX_INFO_LINES && Undecided(line)
    ensures Pending(got + [line], info + NonBlank(line))
  {
    InfoSnoc(got, line);
    QuietSnoc(got, line);
  }

  lemma LastRead(got: seq<Result<seq<byte>, Error>>, info: seq<seq<byte>>, line: Result<seq<byte>, Error>)
    requires Pending(got, info) && |info| < MAX_INFO_LINES && !Undecided(line)
    ensures Concludes(got + [line], if line.Ok? then Ok(CommandResponse(info, FinalSpec(line.value).value)) else Err(line.error))
  {
    assert (got + [line])[..|got|] == got;
  }

  lemma TooMany(got: seq<Result<seq<byte>, Error>>, info: seq<seq<byte>>)
    requires Pending(got, info) && |info| == MAX_INFO_LINES
    ensures Concludes(got, Err(UnexpectedResponse))
  {
    var n := |got| - 1;
    assert Undecided(got[n]);
    assert forall m :: 0 <= m < n ==> Undecided(got[..n][m]);
  }

  lemma QuietSnoc(got: seq<Result<seq<byte>, Error>>, r: Result<seq<byte>, Error>)
    requires Quiet(got) && Undecided(r)
    ensures Quiet(got + [r])
  {
  }

  lemma BlankDecidesNothing()
    ensures Undecided(Ok([]))
  {
  }

  /** How a command ends on the reads it made: before the last it had collected fewer lines
      than it will and none decided; the last is a final result and those lines are the
      information, or it failed, or it is one line too many. */
  ghost predicate Concludes(got: seq<Result<seq<byte>, Error>>, r: Result<CommandResponse, Error>) {
    if got == [] then false
    else
      var n := |got| - 1;
      var before, last := got[..n], got[n];
      && Quiet(before) && |Info(before)| < MAX_INFO_LINES
      && if last.Ok? && FinalSpec(last.value).Some? then r == Ok(CommandResponse(Info(before), FinalSpec(last.value).value))
         else if last.Err? then r == Err(last.error)
         else |Info(got)| == MAX_INFO_LINES && r == Err(UnexpectedResponse)
  }
}
