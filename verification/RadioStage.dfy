/**
 Staging a radio image over HTTP: the first sector is held back in RAM and programmed last, as
 the commit marker.  `ImageSize` and `Accepts` are what the sync at boot derives from the
 partition; the crash-safety theorem relates the two.
 */
module RadioStage {
  import opened NorFlash

  const APP_IMAGE_ADDR := 0x20000
  const APP_DESC_ADDR := 0x20020
  const APP_DESC_SIZE := 256
  const MIN_IMAGE := 0x20120
  const RECV_CAP := 1024

  const IMAGE_MAGIC: cell := 0xE9

  // ---- What a partition says about itself ----

  /** ESP_APP_DESC_MAGIC_WORD, 0xABCD5432, little endian. */
  predicate DescriptorValid(s: seq<cell>)
    requires |s| >= APP_DESC_ADDR + 4
  {
    s[APP_DESC_ADDR] == 0x32 && s[APP_DESC_ADDR + 1] == 0x54 &&
    s[APP_DESC_ADDR + 2] == 0xCD && s[APP_DESC_ADDR + 3] == 0xAB
  }

  lemma DescriptorSpelled(s: seq<cell>)
    requires |s| >= 0x20024
    ensures DescriptorValid(s) <==> s[0x20020..0x20024] == [0x32, 0x54, 0xCD, 0xAB]
  {
    var word := s[0x20020..0x20024];
    assert word[0] == s[0x20020] && word[1] == s[0x20021] && word[2] == s[0x20022] && word[3] == s[0x20023];
  }

  /** Length up to and including the last byte that is not blank. */
  function TrimLen(s: seq<cell>): (n: nat)
    ensures n <= |s|
    ensures n > 0 ==> s[n - 1] != BLANK
    ensures forall i :: n <= i < |s| ==> s[i] == BLANK
  {
    if |s| > 0 && s[|s| - 1] == BLANK then TrimLen(s[..|s| - 1]) else |s|
  }

  function ImageSize(part: seq<cell>): (n: nat)
    ensures TrimLen(part) <= n < TrimLen(part) + 4 && n % 4 == 0
  {
    (TrimLen(part) + 3) / 4 * 4
  }

  lemma ImageSizeFits(part: seq<cell>)
    requires |part| % 4 == 0
    ensures ImageSize(part) <= |part|
  {
  }

  predicate Accepts(part: seq<cell>) {
    && ImageSize(part) > APP_DESC_ADDR + APP_DESC_SIZE
    && |part| >= ImageSize(part)
    && part[0] == IMAGE_MAGIC
    && DescriptorValid(part)
  }

  /**
   With `n` bytes before the blank tail, a partition is accepted exactly when those are more than 0x20120,
   the first is 0xE9 and the descriptor has its magic word.
   */
  lemma AcceptedExactly(part: seq<cell>, n: nat)
    requires n <= |part| && |part| % 4 == 0 && (n > 0 ==> part[n - 1] != 0xFF)
    requires forall i :: n <= i < |part| ==> part[i] == 0xFF
    ensures Accepts(part) <==>
            && n > 0x20120 && part[0] == 0xE9
            && part[0x20020] == 0x32 && part[0x20021] == 0x54 && part[0x20022] == 0xCD && part[0x20023] == 0xAB
  {
    assert n == TrimLen(part);
  }

  // ---- One upload ----

  datatype Recv = Got(n: nat) | Timeout | Error

  datatype Upload = Upload(body: seq<cell>, plan: seq<Recv>, power: nat)

  datatype Outcome = Refused | Cut | Committed

  /** A partition holding `body` and nothing else. */
  function Image(size: nat, body: seq<cell>): (s: seq<cell>)
    requires |body| <= size
    ensures |s| == size
  {
    seq(size, i requires 0 <= i < size => if i < |body| then body[i] else BLANK)
  }

  /** The same while sector 0 is still held back. */
  ghost function HeldBack(size: nat, got: seq<cell>): (s: seq<cell>)
    ensures |s| == size
  {
    seq(size, i requires 0 <= i < size => if SECTOR <= i < |got| then got[i] else BLANK)
  }

  predicate ChipAllowed(part: seq<cell>, body: seq<cell>)
    requires |part| >= SECTOR && |body| >= SECTOR
  {
    part[0] == IMAGE_MAGIC ==> part[12] == body[12] && part[13] == body[13]
  }

  lemma AndBlank(x: cell)
    ensures BLANK & x == x
  {
  }

  lemma NextPiece(size: nat, body: seq<cell>, received: nat, off: nat, r: nat)
    requires received <= received + off <= received + r <= |body| <= size
    requires off == if received >= SECTOR then 0 else if SECTOR - received <= r then SECTOR - received else r
    ensures Programmed(HeldBack(size, body[..received]), received + off, body[received + off..received + r])
         == HeldBack(size, body[..received + r])
  {
    var held := HeldBack(size, body[..received]);
    var piece := body[received + off..received + r];
    var now, want := Programmed(held, received + off, piece), HeldBack(size, body[..received + r]);
    forall i | 0 <= i < size ensures now[i] == want[i] {
      if received + off <= i < received + r {
        AndBlank(piece[i - (received + off)]);
      }
    }
  }

  lemma CommitCompletes(size: nat, body: seq<cell>)
    requires SECTOR <= |body| <= size
    ensures Programmed(HeldBack(size, body), 0, body[..SECTOR]) == Image(size, body)
  {
    forall i | 0 <= i < size
      ensures Programmed(HeldBack(size, body), 0, body[..SECTOR])[i] == Image(size, body)[i]
    {
      if i < SECTOR {
        AndBlank(body[i]);
      }
    }
  }

  /** How much of `left` missing bytes one receive call delivers when it is asked for a bufferful. */
  function Delivered(n: nat, left: nat): (r: nat)
    requires left > 0
    ensures 0 < r <= left && r <= RECV_CAP
  {
    var chunk := if left > RECV_CAP then RECV_CAP else left;
    if n == 0 then 1 else if n > chunk then chunk else n
  }

  /** The receive calls deliver all `left` bytes before one of them fails. */
  predicate Arrives(left: nat, plan: seq<Recv>)
    decreases |plan|
  {
    left == 0 ||
    (|plan| > 0 && match plan[0]
       case Got(n) => Arrives(left - Delivered(n, left), plan[1..])
       case Timeout => Arrives(left, plan[1..])
       case Error => false)
  }

  predicate Fits(part: seq<cell>, body: seq<cell>) {
    MIN_IMAGE <= |body| <= |part|
  }

  predicate Sound(part: seq<cell>, body: seq<cell>)
    requires |part| >= SECTOR && |body| >= MIN_IMAGE
  {
    body[0] == IMAGE_MAGIC && ChipAllowed(part, body) && DescriptorValid(body)
  }

  function Beyond(n: nat): (b: nat) {
    if n > SECTOR then n - SECTOR else 0
  }

  /** Flash steps of a complete upload: all sectors erased, all bytes behind the first, the commit. */
  function Budget(size: nat, body: seq<cell>): (n: nat) {
    size / SECTOR + Beyond(|body|) + 1
  }

  /** What the receive calls of a plan bring in before one of them fails: at most a bufferful each. */
  function Brought(plan: seq<Recv>): (n: nat) {
    if |plan| == 0 || plan[0].Error? then 0
    else (if plan[0].Got? then Delivered(plan[0].n, RECV_CAP) else 0) + Brought(plan[1..])
  }

  /** Timeouts do not matter, and a body arrives exactly when enough bytes come before the first error. */
  lemma {:induction false} ArrivesExactly(left: nat, plan: seq<Recv>)
    ensures Arrives(left, plan) <==> left <= Brought(plan)
    decreases |plan|
  {
    if left > 0 && |plan| > 0 && !plan[0].Error? {
      ArrivesExactly(if plan[0].Got? then left - Delivered(plan[0].n, left) else left, plan[1..]);
    }
  }

  lemma OneCallBringsAtMost1024(n: nat, rest: seq<Recv>)
    ensures Brought([Got(n)] + rest) == (if n == 0 then 1 else if n > 1024 then 1024 else n) + Brought(rest)
    ensures Brought([Timeout] + rest) == Brought(rest) && Brought([Error] + rest) == 0
  {
    assert ([Got(n)] + rest)[1..] == rest && ([Timeout] + rest)[1..] == rest;
  }

  /**
   One POST of `up.body`, cut wherever `up.plan` or `up.power` says.  Either nothing was touched,
   or the partition opens with a blank byte, or it holds exactly the body; and it commits exactly
   when the whole body arrives, is an image with an app descriptor, is for the chip of the image staged
   before, if there was one, and the power lasts.
   */
  method HandleUpload(flash: Flash, up: Upload) returns (res: Outcome)
    requires flash.mem.Length % SECTOR == 0 && flash.mem.Length > 0
    modifies flash, flash.mem
    ensures var was, now := old(flash.mem[..]), flash.mem[..];
            match res
            case Refused => now == was
            case Cut => now == was || now[0] == BLANK
            case Committed => Fits(was, up.body) && Sound(was, up.body) && now == Image(|now|, up.body)
    ensures res.Committed? && old(flash.mem[0]) == 0xE9 ==>
              flash.mem[12] == old(flash.mem[12]) && flash.mem[13] == old(flash.mem[13])
    ensures res.Refused? <==> !(0x20120 <= |up.body| <= flash.mem.Length)
    ensures res.Cut? && up.power > 0 ==> flash.mem[0] == 0xFF
    ensures 0x20120 <= |up.body| <= flash.mem.Length ==>
              (res.Committed? <==>
                && |up.body| <= Brought(up.plan) && up.power >= flash.mem.Length / 4096 + (|up.body| - 4096) + 1
                && up.body[0] == 0xE9 && up.body[0x20020..0x20024] == [0x32, 0x54, 0xCD, 0xAB]
                && (old(flash.mem[0]) == 0xE9 ==>
                     up.body[12] == old(flash.mem[12]) && up.body[13] == old(flash.mem[13])))
    ensures res.Refused? <==> !Fits(old(flash.mem[..]), up.body)
    ensures Fits(old(flash.mem[..]), up.body) ==>
              (res.Committed? <==> Arrives(|up.body|, up.plan) && Sound(old(flash.mem[..]), up.body)
                                   && up.power >= Budget(flash.mem.Length, up.body))
  {
    var size, body := flash.mem.Length, up.body;
    ArrivesExactly(|body|, up.plan);
    flash.PowerUp(up.power);
    if |body| < MIN_IMAGE || |body| > size {
      return Refused;
    }
    ghost var was := flash.mem[..];
    var fenced := flash.mem[0] == IMAGE_MAGIC;
    var chip0, chip1 := flash.mem[12], flash.mem[13];

    var erased := flash.Erase(size);
    if erased * SECTOR != size {
      assert erased == 0 ==> flash.mem[..] == was;
      return Cut;
    }
    assert flash.mem[..] == HeldBack(size, body[..0]);

    var sec0 := new cell[SECTOR];
    var got := ReceiveBody(flash, sec0, up, fenced, chip0, chip1, was);
    if !got {
      return Cut;
    }
    assert body[..|body|] == body;
    assert flash.mem[..][0x20020..0x20024] == body[0x20020..0x20024];
    DescriptorSpelled(flash.mem[..]);
    DescriptorSpelled(body);
    if !DescriptorValid(flash.mem[..]) {
      return Cut;
    }
    CommitCompletes(size, body);
    var landed := flash.WriteAtomic(0, sec0[..]);
    res := if landed then Committed else Cut;
  }

  /** The receive loop: it ends with the whole body held, or somewhere on the way. */
  method ReceiveBody(flash: Flash, sec0: array<cell>, up: Upload, fenced: bool, chip0: cell, chip1: cell,
                     ghost was: seq<cell>)
    returns (got: bool)
    requires sec0 != flash.mem && sec0.Length == SECTOR && |was| == flash.mem.Length && Fits(was, up.body)
    requires flash.mem[..] == HeldBack(flash.mem.Length, up.body[..0])
    requires fenced == (was[0] == IMAGE_MAGIC) && chip0 == was[12] && chip1 == was[13]
    modifies flash, flash.mem, sec0
    ensures flash.mem[0] == BLANK
    ensures got ==> flash.mem[..] == HeldBack(flash.mem.Length, up.body) && Held(sec0[..], up.body, |up.body|, was)
    ensures got ==> Arrives(|up.body|, up.plan) && flash.power == old(flash.power) - Beyond(|up.body|)
    ensures !got ==> !Arrives(|up.body|, up.plan) || up.body[0] != IMAGE_MAGIC || !ChipAllowed(was, up.body)
                     || old(flash.power) < Beyond(|up.body|)
  {
    var received, k := 0, 0;
    while received < |up.body|
      invariant 0 <= received <= |up.body| && k <= |up.plan|
      invariant flash.mem[..] == HeldBack(flash.mem.Length, up.body[..received])
      invariant Held(sec0[..], up.body, received, was)
      invariant flash.power == old(flash.power) - Beyond(received)
      invariant Arrives(|up.body|, up.plan) == Arrives(|up.body| - received, up.plan[k..])
      decreases |up.plan| - k
    {
      assert flash.mem[..][0] == BLANK;
      if k == |up.plan| || up.plan[k].Error? {
        return false;
      }
      var recv := up.plan[k];
      assert up.plan[k..][1..] == up.plan[k + 1..];
      k := k + 1;
      if recv.Got? {
        var r := Delivered(recv.n, |up.body| - received);
        var ok := TakeChunk(flash, sec0, up.body, received, r, fenced, chip0, chip1, was);
        if !ok {
          return false;
        }
        received := received + r;
      }
    }
    assert up.body[..received] == up.body;
    assert flash.mem[..][0] == BLANK;
    got := true;
  }

  /** The held-back first sector so far; once complete, it passed the checks on its header. */
  ghost predicate Held(sec0: seq<cell>, body: seq<cell>, received: nat, was: seq<cell>)
    requires |sec0| == SECTOR <= |was| && received <= |body| && |body| >= SECTOR
  {
    if received >= SECTOR then sec0 == body[..SECTOR] && body[0] == IMAGE_MAGIC && ChipAllowed(was, body)
    else sec0[..received] == body[..received]
  }

  /** One received chunk: the part that belongs to sector 0 is held back, the rest is written. */
  method TakeChunk(flash: Flash, sec0: array<cell>, body: seq<cell>, received: nat, r: nat,
                   fenced: bool, chip0: cell, chip1: cell, ghost was: seq<cell>)
    returns (ok: bool)
    requires sec0 != flash.mem && sec0.Length == SECTOR <= |body| <= flash.mem.Length == |was|
    requires 0 < r && received + r <= |body|
    requires flash.mem[..] == HeldBack(flash.mem.Length, body[..received]) && Held(sec0[..], body, received, was)
    requires fenced == (was[0] == IMAGE_MAGIC) && chip0 == was[12] && chip1 == was[13]
    modifies flash, flash.mem, sec0
    ensures flash.mem[0] == BLANK
    ensures ok ==> flash.power == old(flash.power) - (Beyond(received + r) - Beyond(received))
    ensures !ok ==> body[0] != IMAGE_MAGIC || !ChipAllowed(was, body)
                    || old(flash.power) < Beyond(received + r) - Beyond(received)
    ensures ok ==> flash.mem[..] == HeldBack(flash.mem.Length, body[..received + r])
    ensures ok ==> Held(sec0[..], body, received + r, was)
  {
    assert flash.mem[..][0] == BLANK;
    var off := 0;
    if received < SECTOR {
      off := if SECTOR - received > r then r else SECTOR - received;
      ok := HoldBack(sec0, body, received, off, fenced, chip0, chip1, was);
      if !ok {
        return;
      }
    }
    NextPiece(flash.mem.Length, body, received, off, r);
    ok := true;
    if r - off > 0 {
      var piece := body[received + off..received + r];
      var landed := flash.Write(received + off, piece);
      assert landed == |piece| ==> piece[..landed] == piece;
      assert flash.mem[..][0] == BLANK;
      ok := landed == |piece|;
    } else {
      assert HeldBack(flash.mem.Length, body[..received + r]) == HeldBack(flash.mem.Length, body[..received]);
    }
  }

  /** Fill the first sector; when it is complete, its magic and chip must fit. */
  method HoldBack(sec0: array<cell>, body: seq<cell>, received: nat, off: nat,
                  fenced: bool, chip0: cell, chip1: cell, ghost was: seq<cell>)
    returns (ok: bool)
    requires sec0.Length == SECTOR <= |was| && received + off <= SECTOR <= |body| && received < SECTOR
    requires Held(sec0[..], body, received, was)
    requires fenced == (was[0] == IMAGE_MAGIC) && chip0 == was[12] && chip1 == was[13]
    modifies sec0
    ensures ok ==> Held(sec0[..], body, received + off, was)
    ensures !ok ==> body[0] != IMAGE_MAGIC || !ChipAllowed(was, body)
  {
    FillSector(sec0, received, body[received..received + off]);
    assert body[..received] + body[received..received + off] == body[..received + off];
    assert sec0[..][..received] == sec0[..received];
    ok := true;
    if received + off >= SECTOR {
      assert sec0[..] == sec0[..SECTOR];
      assert sec0[0] == body[0] && sec0[12] == body[12] && sec0[13] == body[13];
      ok := sec0[0] == IMAGE_MAGIC && !(fenced && (sec0[12] != chip0 || sec0[13] != chip1));
    }
  }

  method FillSector(sec0: array<cell>, at: nat, piece: seq<cell>)
    requires at + |piece| <= sec0.Length
    modifies sec0
    ensures sec0[..at + |piece|] == old(sec0[..at]) + piece
  {
    forall i | 0 <= i < |piece| {
      sec0[at + i] := piece[i];
    }
  }

  // ---- Whole runs ----

  /** The partition content the last committed upload stands for; `initial` when there was none. */
  function LastCommit(initial: seq<cell>, ups: seq<Upload>, outs: seq<Outcome>): (s: seq<cell>)
    requires |ups| == |outs|
    ensures |s| == |initial|
  {
    if |ups| == 0 then initial
    else
      var last := |ups| - 1;
      if outs[last].Committed? && |ups[last].body| <= |initial| then Image(|initial|, ups[last].body)
      else LastCommit(initial, ups[..last], outs[..last])
  }

  /** What one upload does to the first bytes of the partition. */
  ghost predicate Uploaded(was: seq<cell>, up: Upload, res: Outcome, now: seq<cell>) {
    && |was| == |now| && |now| > 13
    && (res.Refused? ==> now == was)
    && (res.Cut? && up.power > 0 ==> now[0] == 0xFF)
    && (res.Committed? ==>
         && |up.body| > 13 && now[0] == 0xE9 && now[12] == up.body[12] && now[13] == up.body[13]
         && (was[0] == 0xE9 ==> now[12] == was[12] && now[13] == was[13]))
  }

  lemma {:induction false} RefusalsChangeNothing(mems: seq<seq<cell>>, ups: seq<Upload>, outs: seq<Outcome>,
                                                 i: nat, j: nat)
    requires |mems| == |ups| + 1 && |outs| == |ups| && i < j <= |ups|
    requires forall k :: 0 <= k < |ups| ==> Uploaded(mems[k], ups[k], outs[k], mems[k + 1])
    requires forall k :: i < k < j ==> outs[k].Refused?
    ensures mems[j] == mems[i + 1]
  {
    if i + 1 < j {
      RefusalsChangeNothing(mems, ups, outs, i, j - 1);
      assert Uploaded(mems[j - 1], ups[j - 1], outs[j - 1], mems[j]);
    }
  }

  lemma Fence(mems: seq<seq<cell>>, ups: seq<Upload>, outs: seq<Outcome>, i: nat, j: nat)
    requires |mems| == |ups| + 1 && |outs| == |ups| && i < j < |ups|
    requires forall k :: 0 <= k < |ups| ==> Uploaded(mems[k], ups[k], outs[k], mems[k + 1])
    requires forall k :: i < k < j ==> outs[k].Refused?
    ensures outs[i].Committed? && outs[j].Committed? ==>
              |ups[i].body| > 13 && |ups[j].body| > 13 && ups[i].body[12..14] == ups[j].body[12..14]
    ensures outs[i].Cut? && ups[i].power > 0 ==> |mems[j]| > 0 && mems[j][0] == 0xFF
  {
    RefusalsChangeNothing(mems, ups, outs, i, j);
    assert Uploaded(mems[i], ups[i], outs[i], mems[i + 1]) && Uploaded(mems[j], ups[j], outs[j], mems[j + 1]);
  }

  /**
   Over any sequence of uploads, each cut, refused or crashed anywhere: a partition that the sync
   accepts is exactly the last committed body followed by blank flash.  Commits with only refusals
   between them are for one chip; but an upload that is cut once its erase has begun lifts the fence: the
   next one that is not refused finds a blank first byte.  `mems[k]` is the partition before upload `k`.
   */
  method HandleUploads(flash: Flash, ups: seq<Upload>) returns (outs: seq<Outcome>, ghost mems: seq<seq<cell>>)
    requires flash.mem.Length % SECTOR == 0 && flash.mem.Length > 0
    modifies flash, flash.mem
    ensures |outs| == |ups| && |mems| == |ups| + 1 && mems[0] == old(flash.mem[..]) && mems[|ups|] == flash.mem[..]
    ensures flash.mem[0] != BLANK ==> flash.mem[..] == LastCommit(old(flash.mem[..]), ups, outs)
    ensures Accepts(flash.mem[..]) ==> flash.mem[..] == LastCommit(old(flash.mem[..]), ups, outs)
    ensures forall i, j :: 0 <= i < j < |ups| && (forall k :: i < k < j ==> outs[k].Refused?) ==>
              && (outs[i].Committed? && outs[j].Committed? ==>
                   |ups[i].body| > 13 && |ups[j].body| > 13 && ups[i].body[12..14] == ups[j].body[12..14])
              && (outs[i].Cut? && ups[i].power > 0 ==> |mems[j]| > 0 && mems[j][0] == 0xFF)
  {
    ghost var initial := flash.mem[..];
    outs, mems := TakeUploads(flash, ups);
    forall i, j | 0 <= i < j < |ups| && (forall k :: i < k < j ==> outs[k].Refused?)
      ensures outs[i].Committed? && outs[j].Committed? ==>
                |ups[i].body| > 13 && |ups[j].body| > 13 && ups[i].body[12..14] == ups[j].body[12..14]
      ensures outs[i].Cut? && ups[i].power > 0 ==> |mems[j]| > 0 && mems[j][0] == 0xFF
    {
      Fence(mems, ups, outs, i, j);
    }
  }

  method TakeUploads(flash: Flash, ups: seq<Upload>) returns (outs: seq<Outcome>, ghost mems: seq<seq<cell>>)
    requires flash.mem.Length % SECTOR == 0 && flash.mem.Length > 0
    modifies flash, flash.mem
    ensures |outs| == |ups| && |mems| == |ups| + 1 && mems[0] == old(flash.mem[..]) && mems[|ups|] == flash.mem[..]
    ensures flash.mem[0] != BLANK ==> flash.mem[..] == LastCommit(old(flash.mem[..]), ups, outs)
    ensures forall k :: 0 <= k < |ups| ==> Uploaded(mems[k], ups[k], outs[k], mems[k + 1])
  {
    outs, mems := [], [flash.mem[..]];
    ghost var initial := flash.mem[..];
    var k := 0;
    while k < |ups|
      invariant 0 <= k <= |ups| && |outs| == k && |mems| == k + 1 && mems[0] == initial && mems[k] == flash.mem[..]
      invariant flash.mem[0] != BLANK ==> flash.mem[..] == LastCommit(initial, ups[..k], outs)
      invariant forall i :: 0 <= i < k ==> Uploaded(mems[i], ups[i], outs[i], mems[i + 1])
    {
      var res := HandleUpload(flash, ups[k]);
      assert ups[..k + 1][..k] == ups[..k] && (outs + [res])[..k] == outs;
      assert flash.mem[0] == flash.mem[..][0];
      assert Uploaded(mems[k], ups[k], res, flash.mem[..]);
      outs, mems := outs + [res], mems + [flash.mem[..]];
      k := k + 1;
    }
    assert ups[..k] == ups;
  }

  lemma {:induction false} TrimIsUnique(s: seq<cell>, n: nat)
    requires n <= |s| && (n > 0 ==> s[n - 1] != BLANK)
    requires forall i :: n <= i < |s| ==> s[i] == BLANK
    ensures TrimLen(s) == n
  {
  }

  lemma {:induction false} TrimOfImage(size: nat, body: seq<cell>)
    requires |body| <= size
    ensures TrimLen(Image(size, body)) == TrimLen(body)
  {
    TrimIsUnique(Image(size, body), TrimLen(body));
  }

  /**
   The upload handler and the sync disagree about the smallest image: a committed body is accepted
   exactly when its trimmed length, rounded up to four, exceeds 0x20120.
   */
  lemma CommittedThenAccepted(size: nat, body: seq<cell>)
    requires MIN_IMAGE <= |body| <= size && size % 4 == 0
    requires body[0] == IMAGE_MAGIC && DescriptorValid(body)
    ensures Accepts(Image(size, body)) <==> ImageSize(body) > MIN_IMAGE
  {
    TrimOfImage(size, body);
    ImageSizeFits(Image(size, body));
  }

  /** Concretely: a body of exactly the minimum length commits and is then refused at every boot. */
  lemma SmallestImageIsStuck(size: nat, body: seq<cell>)
    requires |body| == MIN_IMAGE <= size && size % 4 == 0
    requires body[0] == IMAGE_MAGIC && DescriptorValid(body)
    ensures !Accepts(Image(size, body))
  {
    CommittedThenAccepted(size, body);
  }

  /** What the sync would flash is the body itself, up to the blank padding it ends in. */
  lemma AcceptedImageIsTheBody(size: nat, body: seq<cell>)
    requires |body| <= size && size % 4 == 0
    ensures ImageSize(Image(size, body)) == ImageSize(body) <= size
    ensures Image(size, Image(size, body)[..ImageSize(body)]) == Image(size, body)
  {
    TrimOfImage(size, body);
    ImageSizeFits(Image(size, body));
    var s := Image(size, body);
    var again := Image(size, s[..ImageSize(body)]);
    assert forall i :: 0 <= i < size ==> again[i] == s[i];
  }
}
