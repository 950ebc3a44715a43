/**
 The telnet / RFC 2217 receive machine of the TCP sink.

 `Step` is the per-byte transducer; `Client.ProcessRx` is the source's loop with
 its coalescing buffer, its reprocess steps and its fixed subnegotiation buffer.
 */
module TelnetCodec {
  import opened Bytes

  const IAC: byte := 0xFF
  const DONT: byte := 0xFE
  const DO: byte := 0xFD
  const WONT: byte := 0xFC
  const WILL: byte := 0xFB
  const SB: byte := 0xFA
  const SE: byte := 0xF0

  const SB_CAP := 40
  const OUT_CAP := 256

  datatype Mode = Sniff | Raw | Data | Iac | Neg | Sub | SubIac

  /** What the rest of the bridge can observe of a client's input. */
  datatype Event =
    | ToSource(b: byte)
    | Negotiate(cmd: byte, opt: byte)
    | Subnegotiate(payload: seq<byte>)

  datatype Parser = Parser(mode: Mode, telnet: bool, negCmd: byte, sb: seq<byte>)

  const FRESH := Parser(Sniff, false, 0, [])

  predicate IsVerb(b: byte) {
    b == WILL || b == WONT || b == DO || b == DONT
  }

  /** A full subnegotiation buffer drops the excess and keeps collecting. */
  function Collect(sb: seq<byte>, b: byte): (r: seq<byte>) {
    if |sb| < SB_CAP then sb + [b] else sb
  }

  function Step(p: Parser, b: byte): (r: (Parser, seq<Event>)) {
    match p.mode
    case Sniff =>
      if b == IAC then (p.(mode := Iac, telnet := true), [])
      else (p.(mode := Raw), [ToSource(b)])
    case Raw => (p, [ToSource(b)])
    case Data =>
      if b == IAC then (p.(mode := Iac), []) else (p, [ToSource(b)])
    case Iac =>
      if b == IAC then (p.(mode := Data), [ToSource(IAC)])
      else if b == SB then (p.(mode := Sub, sb := []), [])
      else if IsVerb(b) then (p.(mode := Neg, negCmd := b), [])
      else (p.(mode := Data), [])
    case Neg => (p.(mode := Data), [Negotiate(p.negCmd, b)])
    case Sub =>
      if b == IAC then (p.(mode := SubIac), []) else (p.(sb := Collect(p.sb, b)), [])
    case SubIac =>
      if b == IAC then (p.(mode := Sub, sb := Collect(p.sb, IAC)), [])
      else if b == SE then (p.(mode := Data), [Subnegotiate(p.sb)])
      else (p.(mode := Data), [Subnegotiate(p.sb), ToSource(b)])
  }

  function Run(p: Parser, s: seq<byte>): (r: (Parser, seq<Event>))
    decreases |s|
  {
    if |s| == 0 then (p, [])
    else
      var (p1, e1) := Step(p, s[0]);
      var (p2, e2) := Run(p1, s[1..]);
      (p2, e1 + e2)
  }

  /** Feeding the chunks one recv at a time. */
  function RunChunks(p: Parser, chunks: seq<seq<byte>>): (r: (Parser, seq<Event>))
    decreases |chunks|
  {
    if |chunks| == 0 then (p, [])
    else
      var (p1, e1) := Run(p, chunks[0]);
      var (p2, e2) := RunChunks(p1, chunks[1..]);
      (p2, e1 + e2)
  }

  function DataEvents(s: seq<byte>): (r: seq<Event>)
    ensures |r| == |s|
  {
    seq(|s|, i requires 0 <= i < |s| => ToSource(s[i]))
  }

  lemma {:induction false} RunConcat(p: Parser, a: seq<byte>, b: seq<byte>)
    ensures var (p1, e1) := Run(p, a); var (p2, e2) := Run(p1, b);
            Run(p, a + b).0 == p2 && Run(p, a + b).1 == e1 + e2
    decreases |a|
  {
    if |a| == 0 {
      assert a + b == b;
    } else {
      assert (a + b)[1..] == a[1..] + b;
      RunConcat(Step(p, a[0]).0, a[1..], b);
    }
  }

  /** Every cutting of one byte stream into recv chunks gives one and the same outcome. */
  lemma {:induction false} ChunkingIsInvisible(p: Parser, chunks: seq<seq<byte>>)
    ensures RunChunks(p, chunks) == Run(p, Flatten(chunks))
    decreases |chunks|
  {
    if |chunks| > 0 {
      RunConcat(p, chunks[0], Flatten(chunks[1..]));
      ChunkingIsInvisible(Run(p, chunks[0]).0, chunks[1..]);
    }
  }

  lemma {:induction false} RawIsTransparent(p: Parser, s: seq<byte>)
    requires p.mode == Raw
    ensures Run(p, s) == (p, DataEvents(s))
  {
    if |s| > 0 {
      RawIsTransparent(p, s[1..]);
      assert DataEvents(s) == [ToSource(s[0])] + DataEvents(s[1..]);
    }
  }

  /** A client whose first byte is not IAC is passed through byte for byte, forever. */
  lemma PlainClientIsTransparent(s: seq<byte>)
    requires |s| > 0 && s[0] != IAC
    ensures Run(FRESH, s).1 == DataEvents(s)
    ensures !Run(FRESH, s).0.telnet
  {
    RawIsTransparent(FRESH.(mode := Raw), s[1..]);
    assert DataEvents(s) == [ToSource(s[0])] + DataEvents(s[1..]);
  }

  /** The payload handed to the dispatcher never exceeds the buffer, and framing decides the telnet flag. */
  ghost predicate Sane(p: Parser) {
    |p.sb| <= SB_CAP && (p.telnet <==> p.mode != Sniff && p.mode != Raw)
  }

  lemma {:induction false} RunStaysSane(p: Parser, s: seq<byte>)
    requires Sane(p)
    ensures var q := Run(p, s).0; |q.sb| <= 40 && (q.telnet <==> q.mode != Sniff && q.mode != Raw)
    ensures forall e :: e in Run(p, s).1 && e.Subnegotiate? ==> |e.payload| <= 40
    decreases |s|
  {
    if |s| > 0 {
      RunStaysSane(Step(p, s[0]).0, s[1..]);
    }
  }

  /** What has been observed so far together with everything the unread bytes still have to produce. */
  ghost function Owed(p: Parser, seen: seq<Event>, unread: seq<byte>): (r: (Parser, seq<Event>)) {
    (Run(p, unread).0, seen + Run(p, unread).1)
  }

  lemma OwedStep(p: Parser, seen: seq<Event>, unread: seq<byte>)
    requires |unread| > 0
    ensures Owed(p, seen, unread) == Owed(Step(p, unread[0]).0, seen + Step(p, unread[0]).1, unread[1..])
  {
    var (p1, e1) := Step(p, unread[0]);
    assert seen + (e1 + Run(p1, unread[1..]).1) == (seen + e1) + Run(p1, unread[1..]).1;
  }

  lemma DataEventsSnoc(seen: seq<Event>, s: seq<byte>, b: byte)
    ensures seen + DataEvents(s + [b]) == seen + DataEvents(s) + [ToSource(b)]
  {
    assert DataEvents(s + [b]) == DataEvents(s) + [ToSource(b)];
  }

  /** Modes that may hand the byte on to a second pass. */
  function Rank(m: Mode): (r: nat) {
    if m == Sniff || m == SubIac then 1 else 0
  }

  class Client {
    var mode: Mode
    var telnet: bool
    var negCmd: byte
    const sb: array<byte>
    var sbLen: nat
    ghost var trace: seq<Event>  // calls made so far to the source, the negotiator and the dispatcher

    ghost predicate Valid()
      reads this
    {
      sb.Length == SB_CAP && sbLen <= SB_CAP
    }

    ghost function View(): (p: Parser)
      requires Valid()
      reads this, sb
    {
      Parser(mode, telnet, negCmd, sb[..sbLen])
    }

    constructor ()
      ensures Valid() && fresh(sb)
      ensures View() == FRESH && trace == []
    {
      mode, telnet, negCmd, sbLen, trace := Sniff, false, 0, 0, [];
      sb := new byte[SB_CAP];
    }

    method CollectByte(b: byte)
      requires Valid()
      modifies this`sbLen, sb
      ensures Valid()
      ensures View() == old(View()).(sb := Collect(old(View()).sb, b))
    {
      if sbLen < SB_CAP {
        sb[sbLen] := b;
        sbLen := sbLen + 1;
        assert sb[..sbLen] == old(sb[..sbLen]) + [b];
      }
    }

    /** Hands `out[..n]` to the source. */
    ghost method EmitData(run: seq<byte>)
      modifies this`trace
      ensures trace == old(trace) + DataEvents(run)
    {
      trace := trace + DataEvents(run);
    }

    /** One non-raw byte outside TS_DATA and the doubled 0xFF: no data is buffered while it runs. */
    method Control(b: byte) returns (again: bool)
      requires Valid() && mode != Raw && mode != Data
      requires !(mode == Iac && b == IAC)
      modifies this, sb
      ensures Valid()
      ensures !again ==> View() == Step(old(View()), b).0
      ensures !again ==> trace == old(trace) + Step(old(View()), b).1
      ensures again ==> Rank(mode) < Rank(old(mode)) && b != IAC
      ensures again ==> Step(View(), b).0 == Step(old(View()), b).0
      ensures again ==> trace + Step(View(), b).1 == old(trace) + Step(old(View()), b).1
    {
      again := false;
      match mode {
        case Sniff =>
          if b != IAC {
            mode := Raw;
            again := true;
          } else {
            telnet := true;
            mode := Iac;
          }
        case Iac =>
          if b == SB {
            sbLen := 0;
            mode := Sub;
          } else if IsVerb(b) {
            negCmd := b;
            mode := Neg;
          } else {
            mode := Data;
          }
        case Neg =>
          trace := trace + [Negotiate(negCmd, b)];
          mode := Data;
        case Sub =>
          if b == IAC {
            mode := SubIac;
          } else {
            CollectByte(b);
          }
        case SubIac =>
          if b == IAC {
            CollectByte(IAC);
            mode := Sub;
          } else {
            trace := trace + [Subnegotiate(sb[..sbLen])];
            mode := Data;
            again := b != SE;
          }
      }
    }

    /** One recv chunk: the trace grows by exactly the transducer's output. */
    method ProcessRx(buf: seq<byte>)
      requires Valid()
      modifies this, sb
      ensures Valid()
      ensures View() == Run(old(View()), buf).0
      ensures trace == old(trace) + Run(old(View()), buf).1
    {
      var out := new byte[OUT_CAP];
      var oi := 0;
      var i := 0;
      ghost var total := Owed(View(), trace, buf);
      assert buf[i..] == buf;
      assert trace + DataEvents(out[..oi]) == trace;
      while i < |buf|
        invariant 0 <= i <= |buf| && 0 <= oi < OUT_CAP && Valid()
        // data waits only in TS_DATA, so no control event can overtake it
        invariant oi > 0 ==> mode == Data
        invariant Owed(View(), trace + DataEvents(out[..oi]), buf[i..]) == total
        decreases |buf| - i, Rank(mode)
      {
        if mode == Raw {
          RawIsTransparent(View(), buf[i..]);
          EmitData(buf[i..]);
          return;
        }
        var b := buf[i];
        OwedStep(View(), trace + DataEvents(out[..oi]), buf[i..]);
        assert buf[i..][1..] == buf[i + 1..];
        if (mode == Data && b != IAC) || (mode == Iac && b == IAC) {
          DataEventsSnoc(trace, out[..oi], b);
          ghost var held := out[..oi];
          out[oi] := b;
          oi := oi + 1;
          assert out[..oi] == held + [b];
          mode := Data;
          if oi == OUT_CAP {
            EmitData(out[..oi]);
            oi := 0;
          }
          assert oi == 0 ==> trace + DataEvents(out[..oi]) == trace;
          i := i + 1;
        } else if mode == Data {
          if oi > 0 {
            EmitData(out[..oi]);
            oi := 0;
          }
          assert oi == 0 ==> trace + DataEvents(out[..oi]) == trace;
          mode := Iac;
          i := i + 1;
        } else {
          assert trace + DataEvents(out[..oi]) == trace;
          var again := Control(b);
          assert trace + DataEvents(out[..oi]) == trace;
          if again {
            OwedStep(View(), trace, buf[i..]);
          } else {
            i := i + 1;
          }
        }
      }
      if oi > 0 {
        EmitData(out[..oi]);
      }
    }

    /** The receive loop of a client task: only the byte stream matters, not how recv cut it. */
    method Receive(chunks: seq<seq<byte>>)
      requires Valid()
      modifies this, sb
      ensures Valid()
      ensures View() == Run(old(View()), Flatten(chunks)).0
      ensures trace == old(trace) + Run(old(View()), Flatten(chunks)).1
    {
      ghost var start, before := View(), trace;
      var k := 0;
      while k < |chunks|
        invariant 0 <= k <= |chunks| && Valid()
        invariant RunChunks(start, chunks).0 == RunChunks(View(), chunks[k..]).0
        invariant before + RunChunks(start, chunks).1 == trace + RunChunks(View(), chunks[k..]).1
      {
        assert chunks[k..][1..] == chunks[k + 1..];
        ProcessRx(chunks[k]);
        k := k + 1;
      }
      ChunkingIsInvisible(start, chunks);
    }
  }
}
