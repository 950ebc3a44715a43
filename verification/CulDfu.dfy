/**
 Flashing an AVR stick through its Atmel DFU boot loader.  The host's command bytes are interpreted
 by a device model: erasing blanks a 16 KB block, programming a cell that is not blank garbles it.
 A command whose status poll reports OK was carried out in full; one that fails may have been
 carried out for any leading part.
 */
module CulDfu {
  import opened Bytes

  const APP_LIMIT := 0x7000       // the boot loader lies above and protects itself
  const BLOCK := 0x4000
  const TRANSFER_MAX := 0x400
  const CONTROL := 32
  const FOOTER := 16
  const STEP_MS := 100

  datatype Cell = Blank | Holds(b: byte) | Garbled

  // ---- The device ----

  /** A command as the boot loader understands it. */
  datatype Command = Erase(from: nat, to: nat) | Program(start: nat, data: seq<byte>) | Other

  function Word(hi: byte, lo: byte): (w: nat) {
    var h: int := hi;
    h * 0x100 + lo
  }

  function Decode(msg: seq<byte>): (c: Command) {
    if |msg| == 3 && msg[0] == 0x04 && msg[1] == 0x00 then
      if msg[2] == 0xFF then Erase(0, APP_LIMIT)
      else if msg[2] == 0x00 then Erase(0, BLOCK)
      else if msg[2] == 0x20 then Erase(BLOCK, 2 * BLOCK)
      else if msg[2] == 0x40 then Erase(2 * BLOCK, 3 * BLOCK)
      else if msg[2] == 0x80 then Erase(3 * BLOCK, 4 * BLOCK)
      else Other
    else if |msg| > CONTROL + FOOTER && msg[0] == 0x01 && msg[1] == 0x00 then
      var first, last := Word(msg[2], msg[3]), Word(msg[4], msg[5]);
      if last - first + 1 == |msg| - CONTROL - FOOTER then Program(first, msg[CONTROL..|msg| - FOOTER]) else Other
    else Other
  }

  /** The command carried out for its first `part` cells. */
  function Carry(mem: seq<Cell>, c: Command, part: nat): (r: seq<Cell>)
    ensures |r| == |mem|
  {
    match c
    case Erase(from, to) =>
      seq(|mem|, a requires 0 <= a < |mem| => if from <= a < to && a - from < part then Blank else mem[a])
    case Program(start, data) =>
      seq(|mem|, a requires 0 <= a < |mem| =>
        if start <= a < start + |data| && a - start < part
        then (if mem[a].Blank? then Holds(data[a - start]) else Garbled)
        else mem[a])
    case Other => mem
  }

  datatype Poll = Lost | Status(ok: bool, error: bool)

  /** How the device answers one command: the transfer, the status polls, and how far it got if not OK. */
  datatype Answer = Answer(taken: bool, polls: nat -> Poll, part: nat)

  /** Some poll within the time limit reports OK, and none before it is decisive. */
  ghost predicate ReportsOk(polls: nat -> Poll, totalMs: nat) {
    exists k: nat :: k * 100 <= totalMs && polls(k).Status? && polls(k).ok &&
      forall j: nat :: j < k ==> polls(j).Status? && !polls(j).ok && !polls(j).error
  }

  /** Polls until the status is OK, an error state shows, or the time is up. */
  method WaitOk(polls: nat -> Poll, totalMs: nat) returns (ok: bool)
    ensures ok <==> ReportsOk(polls, totalMs)
  {
    var k, waited := 0, 0;
    while waited <= totalMs
      invariant waited == k * STEP_MS
      invariant forall j: nat :: j < k ==> polls(j).Status? && !polls(j).ok && !polls(j).error
      decreases totalMs + STEP_MS - waited
    {
      var p := polls(k);
      if p.Lost? {
        return false;
      }
      if p.ok {
        return true;
      }
      if p.error {
        return false;
      }
      k := k + 1;
      waited := waited + STEP_MS;
    }
    ok := false;
  }

  ghost predicate Good(a: Answer, totalMs: nat) {
    a.taken && ReportsOk(a.polls, totalMs)
  }

  class Device {
    var mem: seq<Cell>

    ghost predicate Valid()
      reads this
    {
      |mem| == APP_LIMIT
    }

    /** One download with its status poll. */
    method Send(msg: seq<byte>, answer: Answer, totalMs: nat) returns (ok: bool)
      requires Valid()
      modifies this
      ensures Valid()
      ensures ok <==> Good(answer, totalMs)
      ensures mem == Carry(old(mem), Decode(msg), if ok then APP_LIMIT else answer.part)
    {
      ok := answer.taken;
      if ok {
        ok := WaitOk(answer.polls, totalMs);
      }
      mem := Carry(mem, Decode(msg), if ok then APP_LIMIT else answer.part);
    }
  }

  // ---- The host ----

  const MODES: seq<byte> := [0x00, 0x20, 0x40, 0x80]

  function Zeros(n: nat): (z: seq<byte>) {
    seq(n, _ => 0)
  }

  /** 32-byte control block, data, 16-byte DFU suffix; addresses modulo 64 KB. */
  function WriteMessage(start: nat, data: seq<byte>): (msg: seq<byte>)
    requires |data| > 0
  {
    Header(start, start + |data| - 1) + data + SUFFIX
  }

  function Header(first: nat, last: nat): (h: seq<byte>)
    ensures |h| == CONTROL
  {
    [0x01, 0x00, first % 0x10000 / 0x100, first % 0x100, last % 0x10000 / 0x100, last % 0x100] + Zeros(CONTROL - 6)
  }

  const SUFFIX: seq<byte> := [0, 0, 0, 0, 16, 0x44, 0x46, 0x55, 0x01, 0x10, 0xFF, 0xFF, 0xFF, 0xFF, 0xFF, 0xFF]

  /** The header the host writes is read by the device as the block that was meant. */
  lemma HeaderRoundTrip(start: nat, data: seq<byte>)
    requires 0 < |data| && start + |data| <= 0x10000
    ensures Decode(WriteMessage(start, data)) == Program(start, data)
  {
    var msg, last := WriteMessage(start, data), start + |data| - 1;
    WordSplit(start);
    WordSplit(last);
    assert |msg| == CONTROL + |data| + FOOTER;
    assert Word(msg[2], msg[3]) == start && Word(msg[4], msg[5]) == last;
    assert msg[CONTROL..|msg| - FOOTER] == data;
  }

  /** The message byte by byte: command 1, 0, first and last address, 26 zeros, the data, and the suffix with "DFU". */
  lemma MessageSpelled(start: nat, data: seq<byte>, i: nat)
    requires 0 < |data| && start + |data| <= 0x10000
    ensures var msg := WriteMessage(start, data);
            && |msg| == 32 + |data| + 16
            && msg[..6] == [1, 0, start / 256, start % 256, (start + |data| - 1) / 256, (start + |data| - 1) % 256]
            && (6 <= i < 32 ==> msg[i] == 0)
            && msg[32..32 + |data|] == data
            && msg[32 + |data|..] == [0, 0, 0, 0, 16] + Ascii("DFU") + [1, 16, 255, 255, 255, 255, 255, 255]
  {
    assert Ascii("DFU") == [0x44, 0x46, 0x55];
    assert SUFFIX == [0, 0, 0, 0, 16] + Ascii("DFU") + [1, 16, 255, 255, 255, 255, 255, 255];
  }

  /** The erase commands, and that nothing with other first bytes is one of the two kinds of command. */
  lemma CommandsMean(msg: seq<byte>)
    ensures Decode([4, 0, 0xFF]) == Erase(0, 0x7000)
    ensures MODES == [0x00, 0x20, 0x40, 0x80]
    ensures Decode([4, 0, 0x00]) == Erase(0, 0x4000) && Decode([4, 0, 0x20]) == Erase(0x4000, 0x8000)
    ensures Decode([4, 0, 0x40]) == Erase(0x8000, 0xC000) && Decode([4, 0, 0x80]) == Erase(0xC000, 0x10000)
    ensures Decode(msg).Erase? ==> |msg| == 3 && msg[0] == 4 && msg[1] == 0 && msg[2] in {0, 0x20, 0x40, 0x80, 0xFF}
    ensures Decode(msg).Program? ==> |msg| > 48 && msg[0] == 1 && msg[1] == 0
  {
  }

  /** A command that was cut short leaves every cell behind the cut alone. */
  lemma CarriedInPart(mem: seq<Cell>, c: Command, part: nat, a: nat)
    requires a < |mem|
    ensures c.Erase? && a >= c.from + part ==> Carry(mem, c, part)[a] == mem[a]
    ensures c.Program? && a >= c.start + part ==> Carry(mem, c, part)[a] == mem[a]
    ensures c.Program? && c.start <= a < c.start + Min(part, |c.data|) ==>
              Carry(mem, c, part)[a] == if mem[a].Blank? then Holds(c.data[a - c.start]) else Garbled
  {
  }

  lemma WordSplit(n: nat)
    requires n < 0x10000
    ensures Word(n % 0x10000 / 0x100, n % 0x100) == n
  {
  }

  method FillHeader(buf: array<byte>, first: nat, last: nat)
    requires buf.Length >= CONTROL
    modifies buf
    ensures buf[..CONTROL] == Header(first, last)
  {
    forall i | 0 <= i < CONTROL { buf[i] := 0; }
    buf[0], buf[1] := 0x01, 0x00;
    buf[2], buf[3] := first % 0x10000 / 0x100, first % 0x100;
    buf[4], buf[5] := last % 0x10000 / 0x100, last % 0x100;
  }

  /** Assembles the message in the driver's fixed buffer. */
  method BuildMessage(buf: array<byte>, start: nat, data: seq<byte>) returns (total: nat)
    requires buf.Length == CONTROL + TRANSFER_MAX + FOOTER && 0 < |data| <= TRANSFER_MAX
    modifies buf
    ensures total == CONTROL + |data| + FOOTER && buf[..total] == WriteMessage(start, data)
  {
    var last := start + |data| - 1;
    FillHeader(buf, start, last);
    forall i | 0 <= i < |data| { buf[CONTROL + i] := data[i]; }
    forall i | 0 <= i < FOOTER { buf[CONTROL + |data| + i] := SUFFIX[i]; }
    total := CONTROL + |data| + FOOTER;
    assert buf[..total] == buf[..CONTROL] + data + SUFFIX;
  }

  /** One block: message, download, status. */
  method FlashBlock(dev: Device, buf: array<byte>, start: nat, data: seq<byte>, answer: Answer) returns (ok: bool)
    requires dev.Valid() && buf.Length == CONTROL + TRANSFER_MAX + FOOTER
    requires 0 < |data| <= TRANSFER_MAX && start + |data| <= APP_LIMIT
    modifies dev, buf
    ensures dev.Valid() && (ok <==> Good(answer, 5000))
    ensures dev.mem == Carry(old(dev.mem), Program(start, data), if ok then APP_LIMIT else answer.part)
  {
    var total := BuildMessage(buf, start, data);
    HeaderRoundTrip(start, data);
    ok := dev.Send(buf[..total], answer, 5000);
  }

  function BlocksNeeded(len: nat): (n: nat) {
    (len + BLOCK - 1) / BLOCK
  }

  ghost predicate BlankUpTo(mem: seq<Cell>, n: nat) {
    n <= |mem| && forall a :: 0 <= a < n ==> mem[a] == Blank
  }

  /** From block `i` on every block is erased, or the first one refused is followed by a chip erase. */
  ghost predicate Erases(need: nat, answers: nat -> Answer, i: nat)
    decreases need - i
  {
    if i >= need || i >= 4 then true
    else if Good(answers(i), 20000) then Erases(need, answers, i + 1)
    else Good(answers(i + 1), 20000)
  }

  /** Erases block by block as far as the image reaches; on refusal, visibly, the whole chip. */
  method EraseBlocks(dev: Device, len: nat, answers: nat -> Answer) returns (ok: bool, fellBack: bool)
    requires dev.Valid() && 0 < len <= APP_LIMIT
    modifies dev
    ensures dev.Valid() && (ok <==> Erases(if len <= 0x4000 then 1 else 2, answers, 0))
    ensures ok ==> BlankUpTo(dev.mem, len)
    // the block that holds the last byte is the last one erased
    ensures !fellBack ==> ok && forall a :: 0 <= a < 0x7000 && (len - 1) / 0x4000 < a / 0x4000 ==>
                                            dev.mem[a] == old(dev.mem)[a]
  {
    var need := BlocksNeeded(len);
    var i := 0;
    while i < need && i < 4
      invariant 0 <= i <= need && dev.Valid()
      invariant Erases(need, answers, 0) == Erases(need, answers, i)
      invariant forall a :: 0 <= a < APP_LIMIT && a < i * BLOCK ==> dev.mem[a] == Blank
      invariant forall a :: need * BLOCK <= a < APP_LIMIT ==> dev.mem[a] == old(dev.mem)[a]
    {
      var done := dev.Send([0x04, 0x00, MODES[i]], answers(i), 20000);
      if !done {
        ok := dev.Send([0x04, 0x00, 0xFF], answers(i + 1), 20000);
        return ok, true;
      }
      i := i + 1;
    }
    return true, false;
  }

  /** Block `k` was written, and the device was still there afterwards. */
  ghost predicate Confirmed(writes: nat -> Answer, gone: nat -> bool, k: nat) {
    Good(writes(k), 5000) && !gone(k)
  }

  datatype Result = Flashed | BadLength | Failed

  ghost predicate HoldsImage(mem: seq<Cell>, img: seq<byte>, n: nat) {
    n <= |img| && n <= |mem| && forall a :: 0 <= a < n ==> mem[a] == Holds(img[a])
  }

  /** The block loop: it stops at the first block that is not confirmed. */
  method WriteBlocks(dev: Device, img: seq<byte>, answers: nat -> Answer, gone: nat -> bool)
    returns (ok: bool, written: nat)
    requires dev.Valid() && 0 < |img| <= APP_LIMIT && BlankUpTo(dev.mem, |img|)
    modifies dev
    ensures dev.Valid() && written <= |img| && (ok ==> written == |img|)
    ensures ok <==> forall k: nat :: k * 0x400 < |img| ==> Confirmed(answers, gone, k)
    ensures HoldsImage(dev.mem, img, written)
    ensures forall a :: |img| <= a < APP_LIMIT ==> dev.mem[a] == old(dev.mem)[a]
  {
    var buf := new byte[CONTROL + TRANSFER_MAX + FOOTER];
    var k := 0;
    written := 0;
    while written < |img|
      invariant written == Min(k * TRANSFER_MAX, |img|) && dev.Valid()
      invariant forall j: nat :: j < k ==> Confirmed(answers, gone, j)
      invariant HoldsImage(dev.mem, img, written)
      invariant forall a :: written <= a < |img| ==> dev.mem[a] == Blank
      invariant forall a :: |img| <= a < APP_LIMIT ==> dev.mem[a] == old(dev.mem)[a]
      decreases |img| - written
    {
      var off := written;
      var n := if |img| - off > TRANSFER_MAX then TRANSFER_MAX else |img| - off;
      assert k * TRANSFER_MAX < |img|;
      ok := FlashBlock(dev, buf, off, img[off..off + n], answers(k));
      if !ok {
        assert !Confirmed(answers, gone, k);
        return;
      }
      written := off + n;
      if gone(k) {
        assert !Confirmed(answers, gone, k);
        return false, written;
      }
      k := k + 1;
    }
    ok := true;
  }

  /**
   Erase, write block by block, start the application.  Since a cell that is programmed twice or
   without an erase is garbled, holding the image means: erased first, then written exactly once.
   */
  method Flash(dev: Device, img: seq<byte>, eraseAnswers: nat -> Answer, writeAnswers: nat -> Answer,
               gone: nat -> bool, starts: bool)
    returns (res: Result, written: nat, fellBack: bool)
    requires dev.Valid()
    modifies dev
    ensures dev.Valid() && written <= |img|
    ensures forall a :: 0 <= a < written ==> a < |dev.mem| && dev.mem[a] == Holds(img[a])
    ensures res == BadLength <==> |img| == 0 || |img| > 0x7000
    ensures res == BadLength ==> dev.mem == old(dev.mem)
    ensures res == Flashed ==> written == |img|
    ensures 0 < |img| <= 0x7000 ==>
              (res == Flashed <==> starts && Erases(if |img| <= 0x4000 then 1 else 2, eraseAnswers, 0) &&
                                   forall k: nat :: k * 0x400 < |img| ==> Confirmed(writeAnswers, gone, k))
    ensures res != BadLength && !fellBack ==>
              forall a :: 0 <= a < 0x7000 && (|img| - 1) / 0x4000 < a / 0x4000 ==> dev.mem[a] == old(dev.mem)[a]
  {
    written, fellBack := 0, false;
    if |img| == 0 || |img| > APP_LIMIT {
      return BadLength, written, fellBack;
    }
    var ok, fb := EraseBlocks(dev, |img|, eraseAnswers);
    fellBack := fb;
    if !ok {
      return Failed, written, fellBack;
    }
    ok, written := WriteBlocks(dev, img, writeAnswers, gone);
    if !ok {
      return Failed, written, fellBack;
    }
    res := if starts then Flashed else Failed;
  }
}
