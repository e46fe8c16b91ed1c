/**
 The monitoring commands: normalising a request, parsing an id out of `get <id>`, and
 dispatching. `std::stoi` follows section 7.22.1.4 of C11 (`strtol`): leading white space, an
 optional sign, then the longest run of digits; anything after that is ignored.
 */
module TcpServer {
  import opened Protocol
  import opened GatewayModel

  const INT_MAX: int := 0x7FFF_FFFF
  const INT_MIN: int := -0x8000_0000

  // ---- numbers as text ----

  predicate IsSpace(c: char) {
    c == ' ' || '\t' <= c <= '\r'
  }

  predicate IsDigit(c: char) {
    '0' <= c <= '9'
  }

  predicate AllDigits(s: string) {
    forall i :: 0 <= i < |s| ==> IsDigit(s[i])
  }

  predicate AllSpaces(s: string) {
    forall i :: 0 <= i < |s| ==> IsSpace(s[i])
  }

  function DigitValue(c: char): int
    requires IsDigit(c)
  {
    c as int - '0' as int
  }

  function DigitChar(d: int): (c: char)
    requires 0 <= d < 10
    ensures IsDigit(c) && DigitValue(c) == d
  {
    ('0' as int + d) as char
  }

  /** The number a digit string denotes. */
  function DecimalValue(s: string): nat
    requires AllDigits(s)
  {
    if |s| == 0 then 0 else 10 * DecimalValue(s[..|s| - 1]) + DigitValue(s[|s| - 1])
  }

  /** How the list prints an id. */
  function Decimal(n: nat): (s: string)
    ensures |s| > 0 && AllDigits(s)
  {
    if n < 10 then [DigitChar(n)] else Decimal(n / 10) + [DigitChar(n % 10)]
  }

  lemma {:induction false} DecimalRoundTrip(n: nat)
    ensures DecimalValue(Decimal(n)) == n
  {
    if n < 10 {
      assert Decimal(n)[..0] == [];
    } else {
      DecimalRoundTrip(n / 10);
      assert Decimal(n)[..|Decimal(n)| - 1] == Decimal(n / 10);
    }
  }

  function SkipSpaces(s: string): string {
    if |s| > 0 && IsSpace(s[0]) then SkipSpaces(s[1..]) else s
  }

  /** The longest prefix of digits. */
  function DigitPrefix(s: string): (ds: string)
    ensures AllDigits(ds)
  {
    if |s| > 0 && IsDigit(s[0]) then [s[0]] + DigitPrefix(s[1..]) else []
  }

  predicate HasSign(s: string) {
    |s| > 0 && (s[0] == '+' || s[0] == '-')
  }

  /** None stands for either of the exceptions: no number, or out of range. */
  function Stoi(s: string): Option<int> {
    var t := SkipSpaces(s);
    var ds := DigitPrefix(if HasSign(t) then t[1..] else t);
    if |ds| == 0 then None else InRange(Signed(HasSign(t) && t[0] == '-', DecimalValue(ds)))
  }

  function Signed(negative: bool, v: nat): int {
    if negative then 0 - v else v
  }

  function InRange(v: int): Option<int> {
    if INT_MIN <= v <= INT_MAX then Some(v) else None
  }

  function ParseId(request: string): Option<uint32>
    requires |request| >= 4
  {
    var id := Stoi(request[4..]);
    if id.None? || id.value <= 0 then None else Some(id.value)
  }

  lemma {:induction false} SkipSpacesStops(ws: string, rest: string)
    requires AllSpaces(ws) && (|rest| > 0 ==> !IsSpace(rest[0]))
    ensures SkipSpaces(ws + rest) == rest
  {
    if |ws| == 0 {
      assert ws + rest == rest;
    } else {
      assert (ws + rest)[1..] == ws[1..] + rest;
      SkipSpacesStops(ws[1..], rest);
    }
  }

  lemma {:induction false} DigitPrefixStops(ds: string, rest: string)
    requires AllDigits(ds) && (|rest| > 0 ==> !IsDigit(rest[0]))
    ensures DigitPrefix(ds + rest) == ds
  {
    if |ds| == 0 {
      assert ds + rest == rest;
    } else {
      assert (ds + rest)[1..] == ds[1..] + rest;
      DigitPrefixStops(ds[1..], rest);
    }
  }

  /** The shape of the strings that denote a number, and the number each denotes. */
  predicate Shape(s: string, ws: string, sign: string, ds: string, rest: string) {
    && s == ws + (sign + (ds + rest))
    && AllSpaces(ws)
    && (sign == "" || sign == "+" || sign == "-")
    && |ds| > 0 && AllDigits(ds)
    && (|rest| > 0 ==> !IsDigit(rest[0]))
  }

  /** Every string of that shape parses to its number, or fails because that is out of range. */
  lemma StoiAcceptsShape(s: string, ws: string, sign: string, ds: string, rest: string)
    requires Shape(s, ws, sign, ds, rest)
    ensures Stoi(s) == InRange(Signed(sign == "-", DecimalValue(ds)))
  {
    var body := sign + (ds + rest);
    assert body[0] == if sign == "" then ds[0] else sign[0];
    SkipSpacesStops(ws, body);
    DigitPrefixStops(ds, rest);
    if sign != "" {
      assert body[1..] == ds + rest;
    } else {
      assert body == ds + rest;
    }
  }

  lemma StoiOfDigits(ds: string)
    requires |ds| > 0 && AllDigits(ds)
    ensures Stoi(ds) == InRange(DecimalValue(ds))
  {
    assert ds == "" + ("" + (ds + ""));
    StoiAcceptsShape(ds, "", "", ds, "");
  }

  lemma {:induction false} SkipSpacesSplits(s: string) returns (ws: string)
    ensures s == ws + SkipSpaces(s) && AllSpaces(ws)
  {
    if |s| > 0 && IsSpace(s[0]) {
      var rest := SkipSpacesSplits(s[1..]);
      ws := [s[0]] + rest;
      assert s == [s[0]] + s[1..];
    } else {
      ws := "";
    }
  }

  lemma {:induction false} DigitPrefixSplits(s: string) returns (rest: string)
    ensures s == DigitPrefix(s) + rest
    ensures |rest| > 0 ==> !IsDigit(rest[0])
  {
    if |s| > 0 && IsDigit(s[0]) {
      rest := DigitPrefixSplits(s[1..]);
      assert s == [s[0]] + s[1..];
    } else {
      rest := s;
    }
  }

  /** No other string parses. */
  lemma StoiNeedsShape(s: string) returns (ws: string, sign: string, ds: string, rest: string)
    requires Stoi(s).Some?
    ensures Shape(s, ws, sign, ds, rest)
  {
    ws := SkipSpacesSplits(s);
    var u;
    sign, u := SignSplits(SkipSpaces(s));
    ds := DigitPrefix(u);
    rest := DigitPrefixSplits(u);
  }

  lemma SignSplits(t: string) returns (sign: string, u: string)
    ensures t == sign + u && (sign == "" || sign == "+" || sign == "-")
    ensures u == if HasSign(t) then t[1..] else t
  {
    if HasSign(t) {
      sign, u := [t[0]], t[1..];
    } else {
      sign, u := "", t;
    }
  }

  // ---- requests ----

  predicate IsNewline(c: char) {
    c == '\n' || c == '\r'
  }

  predicate AllNewlines(s: string) {
    forall i :: 0 <= i < |s| ==> s[i] == '\n' || s[i] == '\r'
  }

  function Strip(s: string): string {
    if |s| > 0 && IsNewline(s[|s| - 1]) then Strip(s[..|s| - 1]) else s
  }

  lemma {:induction false} StripTail(s: string, tail: string)
    requires |s| > 0 && !IsNewline(s[|s| - 1])
    requires AllNewlines(tail)
    ensures Strip(s + tail) == s
  {
    if |tail| == 0 {
      assert s + tail == s;
    } else {
      assert (s + tail)[..|s + tail| - 1] == s + tail[..|tail| - 1];
      StripTail(s, tail[..|tail| - 1]);
    }
  }

  datatype Reply =
    | Help | SensorList | HealthSummary | Statistics
    | Details(id: uint32) | SensorNotFound | InvalidId | UnknownCommand

  datatype LogLine =
    | Command(request: string) | NotFoundLine(id: uint32) | InvalidIdLine | UnknownCommandLine(request: string)

  /** The answer to a normalised request, given the registry the details are looked up in. */
  function Answer(req: string, sensors: Registry): Reply {
    if req == "help" then Help
    else if req == "list" then SensorList
    else if req == "health" then HealthSummary
    else if req == "stats" then Statistics
    else if "get " <= req then
      var id := ParseId(req);
      if id.None? then InvalidId
      else if id.value in sensors then Details(id.value)
      else SensorNotFound
    else UnknownCommand
  }

  class TcpServer {
    var lastCommand: string
    var log: seq<LogLine>

    constructor ()
      ensures lastCommand == "" && log == []
    {
      lastCommand, log := "", [];
    }

    /** `sized` and `sensors` are the two registry copies that a `get` takes. */
    method ProcessRequest(request: string, sized: Registry, sensors: Registry) returns (reply: Reply)
      modifies this
      ensures lastCommand == Strip(request)
      ensures reply == Answer(Strip(request), sensors)
      ensures log == old(log) + [Command(Strip(request))]
                     + (match reply
                        case UnknownCommand => [UnknownCommandLine(Strip(request))]
                        case InvalidId => [InvalidIdLine]
                        case Details(id) => if id > |sized| then [NotFoundLine(id)] else []
                        case SensorNotFound =>
                          var id := ParseId(Strip(request)).value;
                          if id > |sized| then [NotFoundLine(id)] else []
                        case _ => [])
    {
      var req := request;
      while |req| > 0 && IsNewline(req[|req| - 1])
        invariant Strip(req) == Strip(request)
        decreases |req|
      {
        req := req[..|req| - 1];
      }
      lastCommand := req;
      log := log + [Command(req)];
      if req == "help" {
        return Help;
      }
      if req == "list" {
        return SensorList;
      }
      if req == "health" {
        return HealthSummary;
      }
      if req == "stats" {
        return Statistics;
      }
      if "get " <= req {
        var id := ParseId(req);
        if id.None? {
          log := log + [InvalidIdLine];
          return InvalidId;
        }
        if id.value > |sized| {
          log := log + [NotFoundLine(id.value)];
        }
        return if id.value in sensors then Details(id.value) else SensorNotFound;
      }
      log := log + [UnknownCommandLine(req)];
      return UnknownCommand;
    }
  }

  /** Stripping removes line ends only, and all of them. */
  lemma {:induction false} StripSplits(s: string) returns (tail: string)
    ensures s == Strip(s) + tail && AllNewlines(tail)
    ensures |Strip(s)| > 0 ==> Strip(s)[|Strip(s)| - 1] != '\n' && Strip(s)[|Strip(s)| - 1] != '\r'
  {
    if |s| > 0 && IsNewline(s[|s| - 1]) {
      var rest := StripSplits(s[..|s| - 1]);
      tail := rest + [s[|s| - 1]];
    } else {
      tail := "";
    }
  }

  /** The raw request is the command followed by any run of line ends. */
  ghost predicate Requests(request: string, command: string) {
    exists tail: string :: AllNewlines(tail) && request == command + tail
  }

  lemma StripIsCommand(request: string, command: string)
    requires |command| > 0 && !IsNewline(command[|command| - 1])
    ensures Strip(request) == command <==> Requests(request, command)
  {
    if Requests(request, command) {
      var tail: string :| AllNewlines(tail) && request == command + tail;
      StripTail(command, tail);
    }
    if Strip(request) == command {
      var tail := StripSplits(request);
    }
  }

  /**
   Which raw requests get which kind of answer: a command with any run of line ends, or
   anything that still starts with "get " once its line ends are gone.
   */
  lemma CommandTable(request: string, sensors: Registry)
    ensures var reply := Answer(Strip(request), sensors);
            && (reply == Help <==> Requests(request, "help"))
            && (reply == SensorList <==> Requests(request, "list"))
            && (reply == HealthSummary <==> Requests(request, "health"))
            && (reply == Statistics <==> Requests(request, "stats"))
            && (reply.Details? || reply == SensorNotFound || reply == InvalidId <==> "get " <= request)
  {
    var req := Strip(request);
    StripIsCommand(request, "help");
    StripIsCommand(request, "list");
    StripIsCommand(request, "health");
    StripIsCommand(request, "stats");
    var tail := StripSplits(request);
    PrefixSurvivesStrip(request, tail);
    assert "get " <= req ==> req[0] == 'g';
  }

  /** Stripping line ends can not remove the blank of "get ". */
  lemma PrefixSurvivesStrip(request: string, tail: string)
    requires request == Strip(request) + tail && AllNewlines(tail)
    ensures "get " <= Strip(request) <==> "get " <= request
  {
    var req := Strip(request);
    assert |req| < 4 <= |request| ==> tail[3 - |req|] == request[3];
    if "get " <= request {
      assert request[3] == ' ';
      assert request[..4] == req[..4];
    }
    if "get " <= req {
      assert request[..4] == req[..4];
    }
  }

  lemma GetIsDispatched(req: string, sensors: Registry)
    requires "get " <= req
    ensures Answer(req, sensors) ==
            match ParseId(req)
            case None => InvalidId
            case Some(id) => if id in sensors then Details(id) else SensorNotFound
  {
    assert req[0] == 'g';
  }

  /**
   Asking for any id as the list prints it, with any line ending: ids from 1 to 2^31 - 1 are
   answered with details exactly when they are registered; 0 and the ids above are refused
   even when the list shows them.
   */
  lemma GetAnswersListedId(id: uint32, tail: string, sensors: Registry)
    requires AllNewlines(tail)
    ensures var reply := Answer(Strip("get " + Decimal(id) + tail), sensors);
            reply ==
            if !(1 <= id <= INT_MAX) then InvalidId
            else if id in sensors then Details(id)
            else SensorNotFound
  {
    var ds := Decimal(id);
    var req := "get " + ds;
    assert req[|req| - 1] == ds[|ds| - 1];
    StripTail(req, tail);
    GetIsDispatched(req, sensors);
    assert req[4..] == ds;
    StoiOfDigits(ds);
    DecimalRoundTrip(id);
  }

  /**
   What every `get` request is answered, whatever follows the blank: white space, a sign, digits
   and a rest denote a number, which is refused if it is negative, zero or above 2^31 - 1 and
   looked up otherwise; everything else is refused.
   */
  lemma GetAnswersNumber(s: string, tail: string, sensors: Registry)
    requires AllNewlines(tail) && (|s| > 0 ==> s[|s| - 1] != '\n' && s[|s| - 1] != '\r')
    ensures var reply := Answer(Strip("get " + s + tail), sensors);
            && (forall ws, sign, ds, rest | Shape(s, ws, sign, ds, rest) ::
                  var v := DecimalValue(ds);
                  reply ==
                  if sign == "-" || !(1 <= v <= 2147483647) then InvalidId
                  else if v in sensors then Details(v)
                  else SensorNotFound)
            && ((forall ws, sign, ds, rest :: !Shape(s, ws, sign, ds, rest)) ==> reply == InvalidId)
  {
    var req := "get " + s;
    assert req[|req| - 1] == if |s| > 0 then s[|s| - 1] else ' ';
    StripTail(req, tail);
    GetIsDispatched(req, sensors);
    assert req[4..] == s;
    forall ws, sign, ds, rest | Shape(s, ws, sign, ds, rest)
      ensures Stoi(s) == InRange(Signed(sign == "-", DecimalValue(ds)))
    {
      StoiAcceptsShape(s, ws, sign, ds, rest);
    }
    if Stoi(s).Some? {
      var ws, sign, ds, rest := StoiNeedsShape(s);
    }
  }

  // ---- the not-found log line ----

  /** The ids from 1 to n. */
  function FirstIds(n: nat): (ids: set<uint32>)
    requires n < TWO_TO_THE_32
    ensures |ids| == n
    ensures forall id: uint32 :: id in ids <==> 1 <= id <= n
  {
    if n == 0 then {} else FirstIds(n - 1) + {n}
  }

  lemma EqualBySize(a: set<uint32>, b: set<uint32>)
    requires a <= b && |a| == |b|
    ensures a == b
  {
    assert b == a + (b - a);
  }

  /**
   The server logs "not found" when the id exceeds the number of sensors. That agrees with the
   registry on every id a client can ask for if and only if the ids 1 to n are all registered,
   as far as clients can ask; with at most 2^31 - 1 sensors, if and only if the ids are exactly
   1 to n.
   */
  lemma LogTestAgreesIffIdsAreConsecutive(sensors: Registry)
    ensures var n := |sensors|;
            var agrees := forall id: uint32 :: 1 <= id <= INT_MAX ==> (id > n <==> id !in sensors);
            && (agrees <==> FirstIds(if n <= INT_MAX then n else INT_MAX) <= sensors.Keys)
            && (n <= INT_MAX ==> (agrees <==> sensors.Keys == FirstIds(n)))
  {
    var n := |sensors|;
    assert n == |sensors.Keys|;
    if n <= INT_MAX && FirstIds(n) <= sensors.Keys {
      EqualBySize(FirstIds(n), sensors.Keys);
    }
  }
}
