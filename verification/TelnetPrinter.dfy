/**
 The sending side of the telnet codec: 0xFF doubling, the chunked send of a fan-out,
 the COM-PORT reply frame, and the round trip through the receive machine.
 */
module TelnetPrinter {
  import opened Bytes
  import opened TelnetCodec
  import ComPort

  const ESC_CAP := 256
  const REPLY_CAP := 72

  function DoubleByte(b: byte): (r: seq<byte>) {
    if b == IAC then [IAC, IAC] else [b]
  }

  function Double(s: seq<byte>): (r: seq<byte>) {
    if |s| == 0 then [] else DoubleByte(s[0]) + Double(s[1..])
  }

  lemma {:induction false} DoubleConcat(a: seq<byte>, b: seq<byte>)
    ensures Double(a + b) == Double(a) + Double(b)
  {
    if |a| == 0 {
      assert a + b == b;
    } else {
      assert (a + b)[1..] == a[1..] + b;
      DoubleConcat(a[1..], b);
    }
  }

  lemma DoubleSnoc(s: seq<byte>, b: byte)
    ensures Double(s + [b]) == Double(s) + DoubleByte(b)
  {
    DoubleConcat(s, [b]);
    assert [b][1..] == [];
  }

  lemma {:induction false} DoubleLength(s: seq<byte>)
    ensures |s| <= |Double(s)|
    ensures |s| == |Double(s)| <==> IAC !in s
    ensures IAC !in s ==> Double(s) == s
  {
    if |s| > 0 {
      DoubleLength(s[1..]);
      assert s == [s[0]] + s[1..];
    }
  }

  // ---- What a telnet peer can say, and how it is put on the wire ----

  datatype Item =
    | Text(bytes: seq<byte>)
    | Verb(cmd: byte, opt: byte)
    | Command(cmd: byte)  // a two-byte command such as the keep-alive IAC NOP
    | Frame(payload: seq<byte>)

  /** WILL, WONT, DO and DONT take an option; all but these, SB and a second IAC stand alone. */
  predicate WellFormedItem(it: Item) {
    && (it.Verb? ==> 0xFB <= it.cmd <= 0xFE)
    && (it.Command? ==> it.cmd < 0xFA)
  }

  predicate WellFormed(items: seq<Item>) {
    forall i :: 0 <= i < |items| ==> WellFormedItem(items[i])
  }

  function PrintItem(it: Item): (r: seq<byte>) {
    match it
    case Text(s) => Double(s)
    case Verb(c, o) => [IAC, c, o]
    case Command(c) => [IAC, c]
    case Frame(p) => [IAC, SB] + Double(p) + [IAC, SE]
  }

  function Print(items: seq<Item>): (r: seq<byte>) {
    if |items| == 0 then [] else PrintItem(items[0]) + Print(items[1..])
  }

  function Clip(p: seq<byte>): (r: seq<byte>) {
    if |p| <= SB_CAP then p else p[..SB_CAP]
  }

  /** The events the peer meant (`clip == false`), or the same with long payloads cut to the buffer. */
  function Meaning(items: seq<Item>, clip: bool): (r: seq<Event>) {
    if |items| == 0 then [] else ItemMeaning(items[0], clip) + Meaning(items[1..], clip)
  }

  function ItemMeaning(it: Item, clip: bool): (r: seq<Event>) {
    match it
    case Text(s) => DataEvents(s)
    case Verb(c, o) => [Negotiate(c, o)]
    case Command(_) => []
    case Frame(p) => [Subnegotiate(if clip then Clip(p) else p)]
  }

  predicate AllFit(items: seq<Item>) {
    forall i :: 0 <= i < |items| && items[i].Frame? ==> |items[i].payload| <= SB_CAP
  }

  predicate PlainText(items: seq<Item>) {
    forall i :: 0 <= i < |items| ==> items[i].Text? && IAC !in items[i].bytes
  }

  // ---- Parsing what was printed ----

  lemma {:induction false} RunDoubledText(p: Parser, s: seq<byte>)
    requires p.mode == Data
    ensures Run(p, Double(s)).0 == p && Run(p, Double(s)).1 == DataEvents(s)
  {
    if |s| > 0 {
      RunDoubledText(p, s[1..]);
      RunConcat(p, DoubleByte(s[0]), Double(s[1..]));
      assert DoubleByte(s[0])[1..] == if s[0] == IAC then [IAC] else [];
      assert DataEvents(s) == [ToSource(s[0])] + DataEvents(s[1..]);
    }
  }

  lemma {:induction false} RunDoubledPayload(p: Parser, s: seq<byte>)
    requires p.mode == Sub && |p.sb| <= SB_CAP
    ensures Run(p, Double(s)) == (p.(sb := Clip(p.sb + s)), [])
    decreases |s|
  {
    if |s| == 0 {
      assert p.sb + s == p.sb;
    } else {
      var q := p.(sb := Collect(p.sb, s[0]));
      RunDoubledPayload(q, s[1..]);
      RunConcat(p, DoubleByte(s[0]), Double(s[1..]));
      RunPayloadByte(p, s[0]);
      assert s == [s[0]] + s[1..];
      ClipCollected(p.sb, s[0], s[1..]);
    }
  }

  lemma RunPayloadByte(p: Parser, b: byte)
    requires p.mode == Sub
    ensures Run(p, DoubleByte(b)) == (p.(sb := Collect(p.sb, b)), [])
  {
    if b == IAC {
      RunPair(p, IAC, IAC);
    } else {
      var q := Step(p, b).0;
      assert [b][1..] == [] && Run(q, []) == (q, []) && DoubleByte(b) == [b];
      assert Run(p, [b]).1 == Step(p, b).1 + [];
    }
  }

  lemma ClipCollected(sb: seq<byte>, b: byte, rest: seq<byte>)
    requires |sb| <= SB_CAP
    ensures Clip(Collect(sb, b) + rest) == Clip(sb + ([b] + rest))
  {
    assert sb + ([b] + rest) == sb + [b] + rest;
  }

  lemma RunPair(p: Parser, a: byte, b: byte)
    ensures Run(p, [a, b]).0 == Step(Step(p, a).0, b).0
    ensures Run(p, [a, b]).1 == Step(p, a).1 + Step(Step(p, a).0, b).1
  {
    assert [a, b][1..] == [b] && [b][1..] == [];
    var q := Step(p, a).0;
    assert Run(q, [b]).0 == Step(q, b).0 && Run(q, [b]).1 == Step(q, b).1 + [];
  }

  lemma OpenFrame(p: Parser, s: seq<byte>)
    requires p.mode == Data
    ensures Run(p, [IAC, SB] + Double(s)) == (p.(mode := Sub, sb := Clip(s)), [])
  {
    var open := p.(mode := Sub, sb := []);
    assert [] + s == s;
    RunDoubledPayload(open, s);
    RunPair(p, IAC, SB);
    RunConcat(p, [IAC, SB], Double(s));
  }

  lemma RunFrame(p: Parser, s: seq<byte>)
    requires p.mode == Data
    ensures var (q, e) := Run(p, [IAC, SB] + Double(s) + [IAC, SE]);
            q == p.(sb := Clip(s)) && e == [Subnegotiate(if |s| <= 40 then s else s[..40])]
  {
    OpenFrame(p, s);
    RunPair(p.(mode := Sub, sb := Clip(s)), IAC, SE);
    RunConcat(p, [IAC, SB] + Double(s), [IAC, SE]);
  }

  /**
   The byte behind an IAC in the data: 0xFF is one data byte, 0xFA opens a frame, 0xFB to 0xFE take one
   more byte, and every other command is over with that byte and leaves no trace.
   */
  lemma CommandsOnTheWire(p: Parser, c: byte, o: byte)
    requires p.mode == Data
    ensures c < 0xFA ==> Run(p, [0xFF, c]) == (p, [])
    ensures c == 0xFA ==> Run(p, [0xFF, c]) == (p.(mode := Sub, sb := []), [])
    ensures 0xFB <= c <= 0xFE ==> Run(p, [0xFF, c, o]) == (p.(negCmd := c), [Negotiate(c, o)])
    ensures c == 0xFF ==> Run(p, [0xFF, c]) == (p, [ToSource(0xFF)])
  {
    var q := Step(p, 0xFF).0;
    RunPair(p, 0xFF, c);
    RunPair(q, c, o);
    assert [0xFF, c, o][1..] == [c, o];
    assert Run(p, [0xFF, c]).1 == Step(q, c).1;
    assert Run(p, [0xFF, c, o]).1 == Run(q, [c, o]).1 == Step(q, c).1 + Step(Step(q, c).0, o).1;
    assert 0xFB <= c <= 0xFE ==> Run(q, [c, o]).1 == [Negotiate(c, o)];
  }

  /** A frame that an IAC and neither IAC nor SE follows is dispatched, and that byte is data. */
  lemma FrameCutShort(p: Parser, s: seq<byte>, b: byte)
    requires p.mode == Data && b != 0xFF && b != 0xF0
    ensures var (q, e) := Run(p, [0xFF, 0xFA] + Double(s) + [0xFF, b]);
            q == p.(sb := Clip(s)) && e == [Subnegotiate(if |s| <= 40 then s else s[..40]), ToSource(b)]
  {
    var full := p.(mode := Sub, sb := Clip(s));
    OpenFrame(p, s);
    RunPair(full, IAC, b);
    RunConcat(p, [IAC, SB] + Double(s), [IAC, b]);
  }

  lemma RunItem(p: Parser, it: Item)
    requires p.mode == Data && WellFormedItem(it)
    ensures Run(p, PrintItem(it)).1 == ItemMeaning(it, true)
    ensures Run(p, PrintItem(it)).0.mode == Data && Run(p, PrintItem(it)).0.telnet == p.telnet
  {
    match it
    case Text(s) => RunDoubledText(p, s);
    case Verb(c, o) =>
      assert [IAC, c, o][1..] == [c, o];
      RunPair(Step(p, IAC).0, c, o);
    case Command(c) => CommandsOnTheWire(p, c, 0);
    case Frame(s) => RunFrame(p, s);
  }

  lemma {:induction false} RunItems(p: Parser, items: seq<Item>)
    requires p.mode == Data && WellFormed(items)
    ensures Run(p, Print(items)).1 == Meaning(items, true)
    ensures Run(p, Print(items)).0.mode == Data && Run(p, Print(items)).0.telnet == p.telnet
    decreases |items|
  {
    if |items| > 0 {
      RunItem(p, items[0]);
      RunConcat(p, PrintItem(items[0]), Print(items[1..]));
      RunItems(Run(p, PrintItem(items[0])).0, items[1..]);
    }
  }

  lemma {:induction false} ClippingShows(items: seq<Item>)
    ensures |Meaning(items, true)| == |Meaning(items, false)|
    ensures Meaning(items, true) == Meaning(items, false) <==> AllFit(items)
  {
    if |items| > 0 {
      var it, rest := items[0], items[1..];
      ClippingShows(rest);
      assert AllFit(items) <==> (it.Frame? ==> |it.payload| <= SB_CAP) && AllFit(rest) by {
        assert items == [it] + rest;
      }
      var n := |ItemMeaning(it, true)|;
      assert Meaning(items, true)[n..] == Meaning(rest, true);
      assert Meaning(items, false)[n..] == Meaning(rest, false);
      assert Meaning(items, true)[..n] == ItemMeaning(it, true);
      assert Meaning(items, false)[..n] == ItemMeaning(it, false);
      if it.Frame? && |it.payload| > SB_CAP {
        assert ItemMeaning(it, true)[0] != ItemMeaning(it, false)[0];
      }
    }
  }

  lemma {:induction false} RawReading(items: seq<Item>)
    ensures |Meaning(items, false)| <= |Print(items)|
    ensures |Meaning(items, false)| == |Print(items)| <==> PlainText(items)
    ensures PlainText(items) ==> DataEvents(Print(items)) == Meaning(items, false)
  {
    if |items| > 0 {
      var it, rest := items[0], items[1..];
      RawReading(rest);
      RawItem(it);
      DataEventsConcat(PrintItem(it), Print(rest));
      assert PlainText(items) <==> it.Text? && IAC !in it.bytes && PlainText(rest) by {
        assert items == [it] + rest;
      }
    }
  }

  lemma RawItem(it: Item)
    ensures |ItemMeaning(it, false)| <= |PrintItem(it)|
    ensures |ItemMeaning(it, false)| == |PrintItem(it)| <==> it.Text? && IAC !in it.bytes
    ensures it.Text? && IAC !in it.bytes ==> DataEvents(PrintItem(it)) == ItemMeaning(it, false)
  {
    match it
    case Text(s) => DoubleLength(s);
    case Verb(_, _) =>
    case Command(_) =>
    case Frame(s) => DoubleLength(s);
  }

  lemma DataEventsConcat(a: seq<byte>, b: seq<byte>)
    ensures DataEvents(a + b) == DataEvents(a) + DataEvents(b)
  {
  }

  /**
   A fresh connection understands a printed conversation exactly as it was meant if and only if
   either the wire starts with IAC and every frame fits the buffer, or nothing but text without
   0xFF was said (then the connection locks raw and that is what raw means).
   */
  lemma RoundTrip(items: seq<Item>)
    requires WellFormed(items)
    ensures Run(FRESH, Print(items)).1 == Meaning(items, false) <==>
            (|Print(items)| > 0 && Print(items)[0] == IAC && AllFit(items)) || PlainText(items)
  {
    var wire := Print(items);
    RawReading(items);
    if |wire| == 0 {
    } else if wire[0] == IAC {
      var p := FRESH.(mode := Data, telnet := true);
      assert Step(FRESH, IAC) == Step(p, IAC);
      RunItems(p, items);
      ClippingShows(items);
      if PlainText(items) {
        PlainTextHasNoIac(items);
      }
    } else {
      PlainClientIsTransparent(wire);
    }
  }

  lemma {:induction false} PlainTextHasNoIac(items: seq<Item>)
    requires PlainText(items)
    ensures IAC !in Print(items)
  {
    if |items| > 0 {
      DoubleLength(items[0].bytes);
      PlainTextHasNoIac(items[1..]);
    }
  }

  /** Puts one byte, doubled if it is IAC, behind the first `at` bytes of a buffer. */
  method EscapeByte(buf: array<byte>, at: nat, b: byte) returns (n: nat)
    requires at + 2 <= buf.Length
    modifies buf
    ensures n == at + |DoubleByte(b)| <= buf.Length && buf[..n] == old(buf[..at]) + DoubleByte(b)
  {
    buf[at] := b;
    n := at + 1;
    if b == IAC {
      buf[n] := IAC;
      n := n + 1;
    }
  }

  // ---- The COM-PORT reply frame ----

  /** Builds the reply in its 72-byte buffer; a value that does not fit is cut, never the closing IAC SE. */
  method CpoReply(resp: byte, val: seq<byte>) returns (frame: seq<byte>, used: nat)
    ensures used <= |val| && |frame| <= 72
    ensures frame == [IAC, SB, ComPort.COMPORT, resp] + Double(val[..used]) + [IAC, SE]
    ensures used < |val| ==> 71 <= |frame|
  {
    var r := new byte[REPLY_CAP];
    r[0], r[1], r[2], r[3] := IAC, SB, ComPort.COMPORT, resp;
    var k := 4;
    used := 0;
    while used < |val| && k < REPLY_CAP - 3
      invariant 0 <= used <= |val| && 4 <= k <= REPLY_CAP - 2
      invariant r[..k] == [IAC, SB, ComPort.COMPORT, resp] + Double(val[..used])
    {
      DoubleSnoc(val[..used], val[used]);
      assert val[..used + 1] == val[..used] + [val[used]];
      k := EscapeByte(r, k, val[used]);
      Regroup([IAC, SB, ComPort.COMPORT, resp], Double(val[..used]), DoubleByte(val[used]));
      used := used + 1;
    }
    r[k], r[k + 1] := IAC, SE;
    frame := r[..k + 2];
  }

  /** A reply is one well-formed frame exactly when its response code is not IAC. */
  lemma ReplyIsAFrame(resp: byte, val: seq<byte>)
    ensures [IAC, SB, ComPort.COMPORT, resp] + Double(val) + [IAC, SE]
            == PrintItem(Frame([ComPort.COMPORT, resp] + val))
            <==> resp != IAC
  {
    DoubleConcat([ComPort.COMPORT, resp], val);
    DoubleHead(resp);
    Framing(resp, Double(val), DoubleByte(resp));
  }

  lemma Framing(resp: byte, body: seq<byte>, head: seq<byte>)
    requires head == if resp == IAC then [IAC, IAC] else [resp]
    ensures [IAC, SB, ComPort.COMPORT, resp] + body + [IAC, SE]
            == [IAC, SB] + ([ComPort.COMPORT] + head + body) + [IAC, SE]
            <==> resp != IAC
  {
    var sent := [IAC, SB, ComPort.COMPORT, resp] + body + [IAC, SE];
    var framed := [IAC, SB] + ([ComPort.COMPORT] + head + body) + [IAC, SE];
    assert |sent| == 6 + |body| && |framed| == 5 + |head| + |body|;
    if resp != IAC {
      assert sent == framed;
    }
  }

  lemma DoubleHead(resp: byte)
    ensures Double([ComPort.COMPORT, resp]) == [ComPort.COMPORT] + DoubleByte(resp)
  {
    assert [ComPort.COMPORT, resp][1..] == [resp] && [resp][1..] == [];
    assert Double([resp]) == DoubleByte(resp) + [];
  }

  // ---- Sending one fan-out to a telnet client ----

  /** What the k-th non-blocking send call reports: a byte count, or a negative error. */
  type SendScript = nat -> int

  /**
   `cuts[k]` is how much of `data` was taken before the k-th call.  Each call is handed the
   doubled form of a whole slice of `data`, so no doubled pair is split between two calls.
   */
  ghost predicate Handed(data: seq<byte>, calls: seq<seq<byte>>, cuts: seq<nat>) {
    && |cuts| == |calls| + 1 && cuts[0] == 0 && cuts[|calls|] <= |data|
    && (forall k :: 0 <= k < |calls| ==> WholeSlice(data, cuts[k], cuts[k + 1], calls[k]))
    && Flatten(calls) == Double(data[..cuts[|calls|]])
  }

  ghost predicate WholeSlice(data: seq<byte>, a: nat, b: nat, call: seq<byte>) {
    a < b <= |data| && call == Double(data[a..b]) && |call| <= ESC_CAP
  }

  lemma HandOver(data: seq<byte>, calls: seq<seq<byte>>, cuts: seq<nat>, i: nat, call: seq<byte>)
    returns (cuts': seq<nat>)
    requires Handed(data, calls, cuts) && WholeSlice(data, cuts[|calls|], i, call)
    ensures cuts' == cuts + [i] && Handed(data, calls + [call], cuts')
  {
    FlattenSnoc(calls, call);
    SliceGlue(data, cuts[|calls|], i);
    var calls' := calls + [call];
    cuts' := cuts + [i];
    forall k | 0 <= k < |calls'| ensures WholeSlice(data, cuts'[k], cuts'[k + 1], calls'[k]) {
      if k < |calls| {
        assert WholeSlice(data, cuts[k], cuts[k + 1], calls[k]);
      }
    }
  }

  /** All calls so far were nearly full and not refused. */
  ghost predicate Flowing(calls: seq<seq<byte>>, script: SendScript) {
    forall k :: 0 <= k < |calls| ==> script(k) >= 0 && |calls[k]| >= ESC_CAP - 1
  }

  /** One send call. */
  method Hand(ghost data: seq<byte>, calls: seq<seq<byte>>, ghost cuts: seq<nat>, ghost i: nat, call: seq<byte>,
              script: SendScript)
    returns (calls': seq<seq<byte>>, ghost cuts': seq<nat>, ok: bool)
    requires Handed(data, calls, cuts) && WholeSlice(data, cuts[|calls|], i, call)
    ensures calls' == calls + [call] && cuts' == cuts + [i] && Handed(data, calls', cuts')
    ensures ok <==> script(|calls|) >= 0
    ensures Flowing(calls, script) && ok && |call| >= ESC_CAP - 1 ==> Flowing(calls', script)
  {
    cuts' := HandOver(data, calls, cuts, i, call);
    calls' := calls + [call];
    ok := script(|calls|) >= 0;
  }

  /** What has not been handed over yet waits in the buffer. */
  ghost predicate Waiting(data: seq<byte>, calls: seq<seq<byte>>, cuts: seq<nat>, i: nat, buffer: seq<byte>) {
    && Handed(data, calls, cuts) && cuts[|calls|] <= i <= |data|
    && buffer == Double(data[cuts[|calls|]..i]) && (buffer == [] <==> cuts[|calls|] == i)
  }

  /** One byte of the loop, with the send call before it when the buffer could not take a pair. */
  method TakeByte(esc: array<byte>, ei: nat, data: seq<byte>, i: nat, calls: seq<seq<byte>>, ghost cuts: seq<nat>,
                  script: SendScript)
    returns (ei': nat, calls': seq<seq<byte>>, ghost cuts': seq<nat>, ok: bool)
    requires i < |data| && ei <= esc.Length == ESC_CAP
    requires Waiting(data, calls, cuts, i, esc[..ei]) && Flowing(calls, script)
    modifies esc
    ensures Handed(data, calls', cuts')
    ensures ok ==> ei' <= ESC_CAP && Waiting(data, calls', cuts', i + 1, esc[..ei']) && Flowing(calls', script)
    ensures !ok ==> Refused(calls', script)
  {
    ei', calls', cuts', ok := ei, calls, cuts, true;
    if ei + 2 > ESC_CAP {
      calls', cuts', ok := Hand(data, calls, cuts, i, esc[..ei], script);
      if !ok {
        return;
      }
      ei' := 0;
    }
    WaitingMore(data, calls', cuts', i, esc[..ei']);
    ei' := EscapeByte(esc, ei', data[i]);
  }

  lemma WaitingMore(data: seq<byte>, calls: seq<seq<byte>>, cuts: seq<nat>, i: nat, buffer: seq<byte>)
    requires i < |data| && Waiting(data, calls, cuts, i, buffer)
    ensures Waiting(data, calls, cuts, i + 1, buffer + DoubleByte(data[i]))
  {
    var from := cuts[|calls|];
    DoubleSnoc(data[from..i], data[i]);
    assert data[from..i + 1] == data[from..i] + [data[i]];
  }

  /** The last call, and no other, got a negative result. */
  ghost predicate Refused(calls: seq<seq<byte>>, script: SendScript) {
    && |calls| > 0 && script(|calls| - 1) < 0
    && forall k :: 0 <= k < |calls| ==> |calls[k]| >= ESC_CAP - 1 && (k < |calls| - 1 ==> script(k) >= 0)
  }

  /** What is left in the buffer goes out as the last call. */
  method SendRest(ghost data: seq<byte>, buffer: seq<byte>, calls: seq<seq<byte>>, ghost cuts: seq<nat>,
                  script: SendScript)
    returns (calls': seq<seq<byte>>, ghost cuts': seq<nat>, failed: bool)
    requires Waiting(data, calls, cuts, |data|, buffer) && Flowing(calls, script) && |buffer| <= ESC_CAP
    ensures Handed(data, calls', cuts') && cuts'[|calls'|] == |data|
    ensures forall k :: 0 <= k < |calls'| - 1 ==> script(k) >= 0
    ensures failed <==> |calls'| > 0 && script(|calls'| - 1) < 0
    ensures forall k :: 0 <= k < |calls'| && cuts'[k + 1] < |data| ==> |calls'[k]| >= ESC_CAP - 1
  {
    calls', cuts', failed := calls, cuts, false;
    if |buffer| > 0 {
      var ok;
      calls', cuts', ok := Hand(data, calls, cuts, |data|, buffer, script);
      failed := !ok;
    }
  }

  /** Only a negative result ends the fan-out early; a short count loses just the tail of its own call. */
  method ClientSend(data: seq<byte>, script: SendScript)
    returns (calls: seq<seq<byte>>, ghost cuts: seq<nat>, failed: bool)
    ensures Handed(data, calls, cuts)
    ensures forall k :: 0 <= k < |calls| - 1 ==> script(k) >= 0
    ensures failed <==> |calls| > 0 && script(|calls| - 1) < 0
    ensures !failed ==> cuts[|calls|] == |data|
    ensures forall k :: 0 <= k < |calls| ==> |calls[k]| <= 256
    ensures forall k :: 0 <= k < |calls| && cuts[k + 1] < |data| ==> |calls[k]| >= 255
  {
    var esc := new byte[ESC_CAP];
    var ei, ok;
    ei, calls, cuts, ok := TakeAll(esc, data, script);
    failed := !ok;
    if ok {
      calls, cuts, failed := SendRest(data, esc[..ei], calls, cuts, script);
    }
    forall k | 0 <= k < |calls| ensures |calls[k]| <= 256 {
      assert WholeSlice(data, cuts[k], cuts[k + 1], calls[k]);
    }
  }

  /** The loop over the data, which a refused call ends. */
  method TakeAll(esc: array<byte>, data: seq<byte>, script: SendScript)
    returns (ei: nat, calls: seq<seq<byte>>, ghost cuts: seq<nat>, ok: bool)
    requires esc.Length == ESC_CAP
    modifies esc
    ensures Handed(data, calls, cuts)
    ensures ok ==> ei <= ESC_CAP && Waiting(data, calls, cuts, |data|, esc[..ei]) && Flowing(calls, script)
    ensures !ok ==> Refused(calls, script)
  {
    ei, calls, cuts, ok := 0, [], [0], true;
    var i := 0;
    while ok && i < |data|
      invariant i <= |data| && Handed(data, calls, cuts)
      invariant ok ==> ei <= ESC_CAP && Waiting(data, calls, cuts, i, esc[..ei]) && Flowing(calls, script)
      invariant !ok ==> Refused(calls, script)
    {
      ei, calls, cuts, ok := TakeByte(esc, ei, data, i, calls, cuts, script);
      i := i + 1;
    }
  }

  lemma SliceGlue(data: seq<byte>, a: nat, b: nat)
    requires a <= b <= |data|
    ensures Double(data[..a]) + Double(data[a..b]) == Double(data[..b])
  {
    DoubleConcat(data[..a], data[a..b]);
    assert data[..a] + data[a..b] == data[..b];
  }

  // ---- What the peer makes of it ----

  /** What a socket took of each call. */
  ghost predicate Accepted(calls: seq<seq<byte>>, counts: seq<nat>) {
    |counts| == |calls| && forall k :: 0 <= k < |calls| ==> counts[k] <= |calls[k]|
  }

  function Taken(calls: seq<seq<byte>>, counts: seq<nat>): (s: seq<byte>)
    requires Accepted(calls, counts)
  {
    if |calls| == 0 then [] else calls[0][..counts[0]] + Taken(calls[1..], counts[1..])
  }

  ghost predicate AllWhole(calls: seq<seq<byte>>, counts: seq<nat>)
    requires |counts| == |calls|
  {
    forall k :: 0 <= k < |calls| ==> counts[k] == |calls[k]|
  }

  lemma {:induction false} TakenLength(calls: seq<seq<byte>>, counts: seq<nat>)
    requires Accepted(calls, counts)
    ensures |Taken(calls, counts)| <= |Flatten(calls)|
    ensures |Taken(calls, counts)| == |Flatten(calls)| <==> AllWhole(calls, counts)
    ensures AllWhole(calls, counts) ==> Taken(calls, counts) == Flatten(calls)
  {
    if |calls| > 0 {
      TakenLength(calls[1..], counts[1..]);
      assert AllWhole(calls, counts) <==> counts[0] == |calls[0]| && AllWhole(calls[1..], counts[1..]) by {
        assert calls == [calls[0]] + calls[1..] && counts == [counts[0]] + counts[1..];
      }
    }
  }

  /** Wire bytes that data events cost at least: a 0xFF costs two. */
  function Weight(events: seq<Event>): (w: nat) {
    if |events| == 0 then 0 else Cost(events[0]) + Weight(events[1..])
  }

  function Cost(e: Event): (c: nat) {
    if e == ToSource(IAC) then 2 else if e.ToSource? then 1 else 0
  }

  lemma {:induction false} WeightConcat(a: seq<Event>, b: seq<Event>)
    ensures Weight(a + b) == Weight(a) + Weight(b)
  {
    if |a| == 0 {
      assert a + b == b;
    } else {
      assert (a + b)[1..] == a[1..] + b;
      WeightConcat(a[1..], b);
    }
  }

  lemma {:induction false} WeightOfData(data: seq<byte>)
    ensures Weight(DataEvents(data)) == |Double(data)|
  {
    if |data| > 0 {
      WeightOfData(data[1..]);
      assert DataEvents(data)[1..] == DataEvents(data[1..]);
    }
  }

  /** A framed stream cannot carry more than it weighs; a pending IAC is one byte of credit. */
  lemma {:induction false} RunIsPaidFor(p: Parser, wire: seq<byte>)
    requires p.mode != Sniff && p.mode != Raw
    ensures Weight(Run(p, wire).1) <= |wire| + (if p.mode == Iac then 1 else 0)
    decreases |wire|
  {
    if |wire| > 0 {
      var (q, e) := Step(p, wire[0]);
      RunIsPaidFor(q, wire[1..]);
      WeightConcat(e, Run(q, wire[1..]).1);
      StepIsPaidFor(p, wire[0]);
    }
  }

  lemma StepIsPaidFor(p: Parser, b: byte)
    requires p.mode != Sniff && p.mode != Raw
    ensures var (q, e) := Step(p, b);
            Weight(e) + (if q.mode == Iac then 1 else 0) <= 1 + (if p.mode == Iac then 1 else 0)
  {
    var e := Step(p, b).1;
    if |e| == 1 {
      assert e == [e[0]] && e[1..] == [];
    } else if |e| == 2 {
      assert e[1..] == [e[1]] && e[1..][1..] == [];
      assert Weight(e[1..]) == Cost(e[1]) + Weight([]);
    }
  }

  /**
   Of a fan-out whose calls carry the first `n` bytes, the peer gets back exactly the source's bytes if
   and only if nothing was left out and every call was taken whole: what a short count cuts off is never
   made up for by what the remaining calls carry.
   */
  lemma FanoutReadsBack(p: Parser, data: seq<byte>, n: nat, calls: seq<seq<byte>>, counts: seq<nat>)
    requires p.mode == Data && n <= |data| && Flatten(calls) == Double(data[..n]) && Accepted(calls, counts)
    ensures Run(p, Taken(calls, counts)).1 == DataEvents(data) <==> n == |data| && AllWhole(calls, counts)
    ensures AllWhole(calls, counts) ==> Run(p, Taken(calls, counts)).0 == p
  {
    TakenLength(calls, counts);
    RunDoubledText(p, data[..n]);
    WeightOfData(data);
    RunIsPaidFor(p, Taken(calls, counts));
    SliceGlue(data, n, |data|);
    DoubleLength(data[n..]);
    assert data[..|data|] == data && data[n..|data|] == data[n..];
    assert n == |data| ==> data[..n] == data;
  }

  /**
   A fan-out of one 0xFF of which the socket takes one byte leaves a lone IAC: the peer then loses the
   first byte of the next fan-out, or takes two bytes of it for a negotiation.
   */
  lemma ShortCountMisleads(p: Parser)
    requires p.mode == Data
    ensures Accepted([Double([IAC])], [1]) && Taken([Double([IAC])], [1]) == [IAC]
    ensures Run(p, [IAC] + Double([0x41, 0x42])).1 == DataEvents([0x42])
    ensures Run(p, [IAC] + Double([WILL, 0x01])).1 == [Negotiate(WILL, 0x01)]
  {
    assert Double([IAC]) == [IAC, IAC] && [IAC, IAC][..1] == [IAC];
    assert Taken([Double([IAC])], [1]) == [IAC, IAC][..1] + Taken([], []);
    DoubledPair(0x41, 0x42);
    DoubledPair(WILL, 0x01);
    var q := Step(p, IAC).0;
    RunPair(q, 0x41, 0x42);
    RunPair(q, WILL, 0x01);
    RunConcat(p, [IAC], [0x41, 0x42]);
    RunConcat(p, [IAC], [WILL, 0x01]);
    assert Run(p, [IAC]) == (q, []) by {
      assert [IAC][1..] == [] && Run(q, []) == (q, []);
    }
    assert DataEvents([0x42]) == [ToSource(0x42)];
  }

  lemma DoubledPair(a: byte, b: byte)
    requires a != IAC && b != IAC
    ensures Double([a, b]) == [a, b]
  {
    assert [a, b][1..] == [b] && [b][1..] == [];
    assert Double([b]) == [b] + Double([]);
  }
}
