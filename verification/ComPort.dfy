/**
 RFC 2217 COM-PORT-OPTION subnegotiations: who may change the line coding, what a reply reports,
 and how far the report can be trusted about the registers of the built-in UART.
 */
module ComPort {
  import opened Bytes

  const COMPORT: byte := 0x2C
  const SIGNATURE: byte := 0
  const SET_BAUDRATE: byte := 1
  const SET_DATASIZE: byte := 2
  const SET_PARITY: byte := 3
  const SET_STOPSIZE: byte := 4
  const SET_CONTROL: byte := 5
  const LINESTATE_MASK: byte := 10
  const MODEMSTATE_MASK: byte := 11
  const PURGE_DATA: byte := 12
  const SERVER_BASE := 100

  type u32 = x: int | 0 <= x < 0x1_0000_0000

  /** Line coding in CDC form: bits 5..8, parity 0N 1O 2E 3M 4S, stop 0=1 1=1.5 2=2. */
  datatype Coding = Coding(baud: u32, bits: byte, parity: byte, stop: byte)

  datatype Reply = Reply(code: byte, value: seq<byte>)

  // ---- RFC 2217 <-> CDC ----

  function RfcToCdcParity(r: byte): (c: byte) { if 1 <= r <= 5 then r - 1 else 0 }
  function CdcToRfcParity(c: byte): (r: byte) { (c + 1) % 256 }
  function RfcToCdcStop(r: byte): (c: byte) { if r == 2 then 2 else if r == 3 then 1 else 0 }
  function CdcToRfcStop(c: byte): (r: byte) { if c == 2 then 2 else if c == 1 then 3 else 1 }

  function BigEndian(n: u32): (s: seq<byte>)
    ensures |s| == 4
  {
    [n / 0x100_0000, n / 0x1_0000 % 256, n / 0x100 % 256, n % 256]
  }

  function FromBigEndian(s: seq<byte>): (n: u32)
    requires |s| >= 4
  {
    var a: int, b: int, c: int := s[0], s[1], s[2];
    ((a * 256 + b) * 256 + c) * 256 + s[3]
  }

  lemma BaudRoundTrip(s: seq<byte>)
    requires |s| >= 4
    ensures BigEndian(FromBigEndian(s)) == s[..4]
  {
    var a: int, b: int, c: int := s[0], s[1], s[2];
    var n := FromBigEndian(s);
    assert n / 0x100_0000 == a;
    assert n / 0x1_0000 == a * 256 + b && n / 0x100 == (a * 256 + b) * 256 + c;
  }

  // ---- What a command asks for and what a reply reports ----

  predicate IsSet(cmd: byte) { SET_BAUDRATE <= cmd <= SET_STOPSIZE }

  /** The coding a SET command asks for; `None` when it is only a query or is too short. */
  function Requested(cmd: byte, val: seq<byte>, now: Coding): (r: Option<Coding>) {
    if cmd == SET_BAUDRATE then
      if |val| >= 4 && FromBigEndian(val) != 0 then Some(now.(baud := FromBigEndian(val))) else None
    else if |val| == 0 || val[0] == 0 then None
    else if cmd == SET_DATASIZE then Some(now.(bits := val[0]))
    else if cmd == SET_PARITY then Some(now.(parity := RfcToCdcParity(val[0])))
    else if cmd == SET_STOPSIZE then Some(now.(stop := RfcToCdcStop(val[0])))
    else None
  }

  /**
   What the four SET commands ask for: a baud rate of four bytes, the highest first, or one byte; zero asks
   for nothing, and a parity or stop size that RFC 2217 does not define asks for no parity or one stop bit.
   */
  lemma RequestedCodes(val: seq<byte>, now: Coding, cmd: byte)
    ensures Requested(1, val, now) ==
            (if |val| < 4 || val[..4] == [0, 0, 0, 0] then None
             else Some(now.(baud := val[0] as int * 16777216 + val[1] as int * 65536 + val[2] as int * 256 + val[3])))
    ensures Requested(2, val, now) ==
            (if |val| == 0 || val[0] == 0 then None else Some(now.(bits := val[0])))
    ensures Requested(3, val, now) ==
            (if |val| == 0 || val[0] == 0 then None
             else Some(now.(parity := if val[0] <= 5 then val[0] - 1 else 0)))
    ensures Requested(4, val, now) ==
            (if |val| == 0 || val[0] == 0 then None
             else Some(now.(stop := if val[0] == 2 then 2 else if val[0] == 3 then 1 else 0)))
    ensures cmd == 0 || cmd > 4 ==> Requested(cmd, val, now) == None
  {
    if |val| >= 4 {
      assert FromBigEndian(val) == 0 ==> val[0] == 0 && val[1] == 0 && val[2] == 0 && val[3] == 0;
    }
  }

  /** The RFC form of the field a SET command names. */
  function Report(cmd: byte, c: Coding): (r: seq<byte>) {
    if cmd == SET_BAUDRATE then BigEndian(c.baud)
    else if cmd == SET_DATASIZE then [c.bits]
    else if cmd == SET_PARITY then [CdcToRfcParity(c.parity)]
    else [CdcToRfcStop(c.stop)]
  }

  /** An applied request is echoed back verbatim exactly when its code is one RFC 2217 defines. */
  lemma AppliedRequestEchoes(cmd: byte, val: seq<byte>, now: Coding)
    requires IsSet(cmd) && Requested(cmd, val, now).Some?
    ensures var back := Report(cmd, Requested(cmd, val, now).value);
            |back| <= |val| &&
            (back == val[..|back|] <==>
              (cmd == SET_PARITY ==> val[0] <= 5) && (cmd == SET_STOPSIZE ==> val[0] <= 3))
  {
    if cmd == SET_BAUDRATE {
      BaudRoundTrip(val);
    } else {
      assert val[..1] == [val[0]];
    }
  }

  /** A request leaves the reports of the three other fields alone. */
  lemma RequestTouchesOneField(cmd: byte, other: byte, val: seq<byte>, now: Coding)
    requires IsSet(cmd) && IsSet(other) && cmd != other && Requested(cmd, val, now).Some?
    ensures Report(other, Requested(cmd, val, now).value) == Report(other, now)
  {
  }

  function ControlAnswer(req: byte): (r: byte) {
    if req <= 3 then 1 else if req <= 6 then 6 else if req <= 9 then 8 else if req <= 12 then 11 else 1
  }

  // ---- The UART behind the bridge ----

  datatype WireParity = NoParity | Odd | Even
  datatype Wire = Wire(baud: u32, bits: byte, parity: WireParity, twoStop: bool)

  function ToWire(c: Coding): (w: Wire) {
    Wire(c.baud,
         if 5 <= c.bits <= 7 then c.bits else 8,
         if c.parity == 1 then Odd else if c.parity == 2 then Even else NoParity,
         c.stop == 2)
  }

  /** `from` with its first `k` registers (baud, bits, parity, stop) taken from `to`. */
  function Partly(from: Wire, to: Wire, k: nat): (w: Wire) {
    Wire(if k > 0 then to.baud else from.baud,
         if k > 1 then to.bits else from.bits,
         if k > 2 then to.parity else from.parity,
         if k > 3 then to.twoStop else from.twoStop)
  }

  class Uart {
    var shadow: Coding
    var wire: Wire

    constructor (c: Coding)
      ensures shadow == c && wire == ToWire(c)
    {
      shadow, wire := c, ToWire(c);
    }

    /** The four driver calls in order; `failAt` is the first that fails (4 or more: none does). */
    method ApplyLc(c: Coding, failAt: nat) returns (ok: bool)
      modifies this
      ensures ok <==> failAt >= 4
      ensures shadow == if ok then c else old(shadow)
      ensures wire == Partly(old(wire), ToWire(c), failAt)
    {
      ok := failAt > 0;
      if ok { wire := wire.(baud := ToWire(c).baud); ok := failAt > 1; }
      if ok { wire := wire.(bits := ToWire(c).bits); ok := failAt > 2; }
      if ok { wire := wire.(parity := ToWire(c).parity); ok := failAt > 3; }
      if ok { wire := wire.(twoStop := ToWire(c).twoStop); shadow := c; }
    }

    /** The controller let go: the stored coding, else the default, goes back on the wire. */
    method Revert(stored: Option<Coding>, fallback: Coding, failAt: nat)
      modifies this
      ensures var home := if stored.Some? then stored.value else fallback;
              shadow == (if failAt >= 4 then home else old(shadow)) &&
              wire == Partly(old(wire), ToWire(home), failAt)
    {
      var ok := ApplyLc(if stored.Some? then stored.value else fallback, failAt);
    }
  }

  /** What `bridge_get_line_coding` leaves in zero-initialised variables. */
  function Current(u: Uart?): (c: Coding)
    reads u
  {
    if u == null then Coding(0, 0, 0, 0) else u.shadow
  }

  /**
   One COM-PORT subnegotiation run as one step.  A SET reply always reports the coding in force
   afterwards; the coding changes only for the controller, only as requested, and only when the
   driver took all of it.
   */
  method Subnegotiate(sb: seq<byte>, ctrl: bool, u: Uart?, failAt: nat, signature: seq<byte>)
    returns (reply: Option<Reply>)
    modifies u
    ensures |sb| < 2 || sb[0] != 0x2C ==> reply == None
    ensures |sb| >= 2 && sb[0] == 0x2C && 1 <= sb[1] <= 4 ==>
              reply == Some(Reply(100 + sb[1], Report(sb[1], Current(u))))
    // without a source there is no coding to report
    ensures u == null && |sb| >= 2 && sb[0] == 0x2C && 1 <= sb[1] <= 4 ==>
              reply == Some(Reply(100 + sb[1], if sb[1] == 1 then [0, 0, 0, 0] else if sb[1] == 2 then [0] else [1]))
    ensures u != null ==>
              var asked := |sb| >= 2 && sb[0] == 0x2C && ctrl && Requested(sb[1], sb[2..], old(u.shadow)).Some?;
              u.shadow == (if asked && failAt >= 4 then Requested(sb[1], sb[2..], old(u.shadow)).value
                           else old(u.shadow)) &&
              u.wire == (if asked
                         then Partly(old(u.wire), ToWire(Requested(sb[1], sb[2..], old(u.shadow)).value), failAt)
                         else old(u.wire))
    ensures |sb| >= 2 && sb[0] == 0x2C && !(1 <= sb[1] <= 4) ==>
              reply == OtherReply(sb[1], sb[2..], signature)
  {
    if |sb| < 1 || sb[0] != COMPORT {
      return None;
    }
    var cmd: byte := if |sb| >= 2 then sb[1] else 0xFF;
    var val := if |sb| >= 2 then sb[2..] else [];
    var now := Current(u);
    if IsSet(cmd) {
      var want := Requested(cmd, val, now);
      if want.Some? && ctrl && u != null {
        var ok := u.ApplyLc(want.value, failAt);
        if ok {
          now := want.value;
        }
      }
      return Some(Reply(SERVER_BASE + cmd, Report(cmd, now)));
    }
    reply := OtherReply(cmd, val, signature);
  }

  function OtherReply(cmd: byte, val: seq<byte>, signature: seq<byte>): (r: Option<Reply>) {
    if cmd == SIGNATURE then Some(Reply(SERVER_BASE + cmd, signature))
    else if cmd == SET_CONTROL then Some(Reply(SERVER_BASE + cmd, [ControlAnswer(if |val| > 0 then val[0] else 0)]))
    else if cmd == PURGE_DATA then Some(Reply(SERVER_BASE + cmd, [if |val| > 0 then val[0] else 0]))
    else if cmd == LINESTATE_MASK || cmd == MODEMSTATE_MASK then Some(Reply(SERVER_BASE + cmd, [0]))
    else None
  }

  /**
   What the commands that set nothing are answered with.  A control request is answered with the state of
   its own group: no flow control, break off, DTR on, RTS on; whatever lies outside the groups with the first.
   */
  lemma OtherReplies(val: seq<byte>, signature: seq<byte>, cmd: byte)
    ensures OtherReply(0, val, signature) == Some(Reply(100, signature))
    ensures var req := if val == [] then 0 else val[0];
            && OtherReply(12, val, signature) == Some(Reply(112, [req]))
            && OtherReply(5, val, signature) ==
               Some(Reply(105, [if req in {4, 5, 6} then 6 else if req in {7, 8, 9} then 8
                                else if req in {10, 11, 12} then 11 else 1]))
    ensures OtherReply(10, val, signature) == Some(Reply(110, [0]))
    ensures OtherReply(11, val, signature) == Some(Reply(111, [0]))
    ensures cmd !in {0, 5, 10, 11, 12} ==> OtherReply(cmd, val, signature) == None
  {
  }

  // ---- How far a report can be trusted about the wire ----

  /** The RFC form of what the register really holds. */
  function WireReport(cmd: byte, w: Wire): (r: seq<byte>) {
    if cmd == SET_BAUDRATE then BigEndian(w.baud)
    else if cmd == SET_DATASIZE then [w.bits]
    else if cmd == SET_PARITY then [match w.parity case NoParity => 1 case Odd => 2 case Even => 3]
    else [if w.twoStop then 2 else 1]
  }

  /** The UART has no mark or space parity, no 1.5 stop bits and no other word length. */
  predicate OnThisUart(cmd: byte, c: Coding) {
    && (cmd == SET_DATASIZE ==> 5 <= c.bits <= 8)
    && (cmd == SET_PARITY ==> c.parity <= 2)
    && (cmd == SET_STOPSIZE ==> c.stop != 1)
  }

  lemma ReportIsTrueOfTheWire(cmd: byte, c: Coding)
    requires IsSet(cmd)
    ensures Report(cmd, c) == WireReport(cmd, ToWire(c)) <==> OnThisUart(cmd, c)
  {
    if cmd == SET_DATASIZE {
      assert Report(cmd, c)[0] == c.bits;
    } else if cmd == SET_PARITY {
      assert Report(cmd, c)[0] == CdcToRfcParity(c.parity);
      assert WireReport(cmd, ToWire(c))[0] == if c.parity == 1 then 2 else if c.parity == 2 then 3 else 1;
    } else if cmd == SET_STOPSIZE {
      assert Report(cmd, c)[0] == CdcToRfcStop(c.stop);
    }
  }

  /**
   After a request that failed at driver call `k`, the wire still agrees with the shadow exactly when
   the call that writes the named register was not reached or would not have changed it.
   */
  lemma FailedApplyAndTheWire(cmd: byte, val: seq<byte>, now: Coding, k: nat)
    requires IsSet(cmd) && k < 4 && Requested(cmd, val, now).Some?
    ensures var want := Requested(cmd, val, now).value;
            Partly(ToWire(now), ToWire(want), k) == ToWire(now) <==> k < cmd || ToWire(want) == ToWire(now)
  {
  }

  /** Concretely: 9600 baud requested, second driver call fails, shadow and reply still say 115200. */
  lemma FailedApplyCanLeaveTheWireChanged()
    ensures var now := Coding(115200, 8, 0, 0); var val := [0, 0, 0x25, 0x80];
            Requested(SET_BAUDRATE, val, now) == Some(now.(baud := 9600)) &&
            Partly(ToWire(now), ToWire(now.(baud := 9600)), 1).baud == 9600 &&
            Report(SET_BAUDRATE, now) == BigEndian(115200)
  {
  }

  // ---- Any history of settings, reverts and driver failures ----

  /** A request or a revert: the coding asked for, and the driver call that fails (4 or more: none). */
  datatype Attempt = Attempt(want: Coding, failAt: nat)

  datatype Line = Line(shadow: Coding, wire: Wire)

  function Try(l: Line, a: Attempt): (r: Line) {
    Line(if a.failAt >= 4 then a.want else l.shadow, Partly(l.wire, ToWire(a.want), a.failAt))
  }

  function AfterAll(start: Coding, run: seq<Attempt>): (l: Line) {
    if |run| == 0 then Line(start, ToWire(start)) else Try(AfterAll(start, run[..|run| - 1]), run[|run| - 1])
  }

  /** The coding of the last attempt that got as far as driver call `r`. */
  function LastReaching(start: Coding, run: seq<Attempt>, r: nat): (c: Coding) {
    if |run| == 0 then start
    else if run[|run| - 1].failAt > r then run[|run| - 1].want
    else LastReaching(start, run[..|run| - 1], r)
  }

  lemma {:induction false} WireIsWhatReachedIt(start: Coding, run: seq<Attempt>)
    ensures var w := AfterAll(start, run).wire;
            && w.baud == ToWire(LastReaching(start, run, 0)).baud
            && w.bits == ToWire(LastReaching(start, run, 1)).bits
            && w.parity == ToWire(LastReaching(start, run, 2)).parity
            && w.twoStop == ToWire(LastReaching(start, run, 3)).twoStop
    ensures AfterAll(start, run).shadow == LastReaching(start, run, 3)
  {
    if |run| > 0 {
      WireIsWhatReachedIt(start, run[..|run| - 1]);
    }
  }

  /**
   After any history a reply about a field is true of the wire exactly when the last attempt that wrote
   that register put there what the last complete one asked for.
   */
  lemma ReplyIsTrueExactly(cmd: byte, start: Coding, run: seq<Attempt>)
    requires IsSet(cmd)
    ensures var l := AfterAll(start, run);
            Report(cmd, l.shadow) == WireReport(cmd, l.wire) <==>
            Report(cmd, LastReaching(start, run, 3)) == WireReport(cmd, ToWire(LastReaching(start, run, cmd - 1)))
  {
    WireIsWhatReachedIt(start, run);
  }

  /** Wire and shadow agree exactly when every register's last writer wanted what the last complete attempt did. */
  lemma AgreesExactly(start: Coding, run: seq<Attempt>)
    ensures var l := AfterAll(start, run); var all := ToWire(LastReaching(start, run, 3));
            l.wire == ToWire(l.shadow) <==>
              && ToWire(LastReaching(start, run, 0)).baud == all.baud
              && ToWire(LastReaching(start, run, 1)).bits == all.bits
              && ToWire(LastReaching(start, run, 2)).parity == all.parity
  {
    WireIsWhatReachedIt(start, run);
  }

  /** What reaches the UART: a client's subnegotiation, or the revert when the controller has left. */
  datatype Op =
    | Command(sb: seq<byte>, ctrl: bool, failing: nat)
    | Release(stored: Option<Coding>, fallback: Coding, failing: nat)

  /** Only the controller's SET commands that ask for something, and reverts, become attempts. */
  function Made(shadow: Coding, op: Op): (a: seq<Attempt>) {
    match op
    case Command(sb, ctrl, failing) =>
      if |sb| >= 2 && sb[0] == COMPORT && ctrl && Requested(sb[1], sb[2..], shadow).Some?
      then [Attempt(Requested(sb[1], sb[2..], shadow).value, failing)] else []
    case Release(stored, fallback, failing) =>
      [Attempt(if stored.Some? then stored.value else fallback, failing)]
  }

  /** The attempts of the first `n` operations; what a command asks for depends on the coding in force. */
  function Attempts(start: Coding, ops: seq<Op>, n: nat): (run: seq<Attempt>)
    requires n <= |ops|
  {
    if n == 0 then []
    else
      var before := Attempts(start, ops, n - 1);
      before + Made(AfterAll(start, before).shadow, ops[n - 1])
  }

  function After(start: Coding, ops: seq<Op>, n: nat): (l: Line)
    requires n <= |ops|
  {
    AfterAll(start, Attempts(start, ops, n))
  }

  /** A SET is answered with the coding in force. */
  predicate Answered(op: Op, reply: Option<Reply>, inForce: Coding) {
    op.Command? && |op.sb| >= 2 && op.sb[0] == 0x2C && 1 <= op.sb[1] <= 4 ==>
      reply == Some(Reply(100 + op.sb[1], Report(op.sb[1], inForce)))
  }

  /**
   The UART goes through any history of subnegotiations by whatever clients and reverts as the attempts in
   it say, and every SET is answered with the coding in force after it.
   */
  method Drive(u: Uart, ops: seq<Op>, signature: seq<byte>) returns (replies: seq<Option<Reply>>)
    requires u.wire == ToWire(u.shadow)
    modifies u
    ensures Line(u.shadow, u.wire) == After(old(u.shadow), ops, |ops|) && |replies| == |ops|
    ensures forall k :: 0 <= k < |ops| ==> Answered(ops[k], replies[k], After(old(u.shadow), ops, k + 1).shadow)
  {
    replies := [];
    ghost var start := u.shadow;
    for n := 0 to |ops|
      invariant Line(u.shadow, u.wire) == After(start, ops, n) && |replies| == n
      invariant AllAnswered(start, ops, replies, n)
    {
      AfterOneMore(start, ops, n);
      var reply := DriveOne(u, ops[n], signature);
      StillAnswered(start, ops, replies, n, reply);
      replies := replies + [reply];
    }
    forall k | 0 <= k < |ops| ensures Answered(ops[k], replies[k], After(start, ops, k + 1).shadow) {
      EachAnswered(start, ops, replies, |ops|, k);
    }
  }

  /** The first `n` replies are right. */
  predicate AllAnswered(start: Coding, ops: seq<Op>, replies: seq<Option<Reply>>, n: nat)
    requires n <= |ops| && n <= |replies|
  {
    n > 0 ==> AllAnswered(start, ops, replies, n - 1) &&
              Answered(ops[n - 1], replies[n - 1], After(start, ops, n).shadow)
  }

  lemma {:induction false} StillAnswered(start: Coding, ops: seq<Op>, replies: seq<Option<Reply>>, n: nat,
                                         more: Option<Reply>)
    requires n <= |ops| && n <= |replies| && AllAnswered(start, ops, replies, n)
    ensures AllAnswered(start, ops, replies + [more], n)
  {
    if n > 0 {
      StillAnswered(start, ops, replies, n - 1, more);
    }
  }

  lemma {:induction false} EachAnswered(start: Coding, ops: seq<Op>, replies: seq<Option<Reply>>, n: nat, k: nat)
    requires k < n <= |ops| && n <= |replies| && AllAnswered(start, ops, replies, n)
    ensures Answered(ops[k], replies[k], After(start, ops, k + 1).shadow)
  {
    if k < n - 1 {
      EachAnswered(start, ops, replies, n - 1, k);
    }
  }

  lemma AfterOneMore(start: Coding, ops: seq<Op>, n: nat)
    requires n < |ops|
    ensures var l := After(start, ops, n);
            After(start, ops, n + 1) == Go(l, ops[n])
  {
    var run := Attempts(start, ops, n);
    OneMore(start, run, Made(AfterAll(start, run).shadow, ops[n]));
  }

  /** One operation. */
  function Go(l: Line, op: Op): (r: Line) {
    var made := Made(l.shadow, op);
    if |made| == 1 then Try(l, made[0]) else l
  }

  lemma OneMore(start: Coding, run: seq<Attempt>, made: seq<Attempt>)
    requires |made| <= 1
    ensures AfterAll(start, run + made) ==
            if |made| == 1 then Try(AfterAll(start, run), made[0]) else AfterAll(start, run)
  {
    if |made| == 1 {
      assert (run + made)[..|run|] == run;
    } else {
      assert run + made == run;
    }
  }

  method DriveOne(u: Uart, op: Op, signature: seq<byte>) returns (reply: Option<Reply>)
    modifies u
    ensures Line(u.shadow, u.wire) == Go(old(Line(u.shadow, u.wire)), op)
    ensures Answered(op, reply, u.shadow)
  {
    reply := None;
    match op
    case Command(sb, ctrl, failing) => reply := Subnegotiate(sb, ctrl, u, failing, signature);
    case Release(stored, fallback, failing) => u.Revert(stored, fallback, failing);
  }
}
