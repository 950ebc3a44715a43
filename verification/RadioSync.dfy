/**
 The boot-time sync that flashes the staged image into the radio.  The decision to rewrite looks
 at the application region only; a rewrite erases and programs from address 0 upward and may be
 interrupted anywhere.
 */
module RadioSync {
  import opened NorFlash
  import opened RadioStage
  import opened Bytes

  const BLOCK := 1024

  datatype Outcome = NoImage | Unreachable | InSync | Interrupted | Rewritten

  function EraseSpan(n: nat): (r: nat)
    ensures n <= r < n + 4096 && r % 4096 == 0
  {
    (n + SECTOR - 1) / SECTOR * SECTOR
  }

  /** The comparison that decides: everything from the application's first byte on. */
  predicate AppMatches(radio: seq<cell>, img: seq<cell>)
    requires APP_IMAGE_ADDR <= |img| <= |radio|
  {
    radio[APP_IMAGE_ADDR..|img|] == img[APP_IMAGE_ADDR..]
  }

  predicate Landed(radio: seq<cell>, img: seq<cell>)
    requires |img| <= |radio|
  {
    radio[..|img|] == img
  }

  /** The comparison looks at the bytes from 0x20000 on, the image is there when every byte is. */
  lemma MatchingMeans(radio: seq<cell>, img: seq<cell>)
    requires 0x20000 <= |img| <= |radio|
    ensures AppMatches(radio, img) <==> forall i :: 0x20000 <= i < |img| ==> radio[i] == img[i]
    ensures Landed(radio, img) <==> forall i :: 0 <= i < |img| ==> radio[i] == img[i]
  {
    forall i | 0 <= i < |img| ensures Landed(radio, img) ==> radio[i] == img[i] {
      assert radio[..|img|][i] == radio[i];
    }
    forall i | 0x20000 <= i < |img| ensures AppMatches(radio, img) ==> radio[i] == img[i] {
      assert radio[APP_IMAGE_ADDR..|img|][i - 0x20000] == radio[i] && img[APP_IMAGE_ADDR..][i - 0x20000] == img[i];
    }
  }

  /** Radio memory after `e` sectors were erased and, the erase being complete, `w` bytes programmed. */
  function AfterRewrite(radio: seq<cell>, img: seq<cell>, e: nat, w: nat): (r: seq<cell>)
    requires w <= |img|
    ensures |r| == |radio|
  {
    Programmed(ErasedTo(radio, e * SECTOR), 0, img[..w])
  }

  predicate RewriteOrder(img: seq<cell>, e: nat, w: nat) {
    e * SECTOR <= EraseSpan(|img|) && w <= |img| && (w > 0 ==> e * SECTOR == EraseSpan(|img|))
  }

  predicate GoodImage(img: seq<cell>) {
    |img| > MIN_IMAGE && DescriptorValid(img)
  }

  // ---- The self-healing test ----

  lemma RewriteContent(radio: seq<cell>, img: seq<cell>, e: nat, w: nat, i: nat)
    requires RewriteOrder(img, e, w) && EraseSpan(|img|) <= |radio| && i < |radio|
    ensures AfterRewrite(radio, img, e, w)[i] ==
            if i < w then img[i] else if i < e * 4096 then 0xFF else radio[i]
  {
    if i < w {
      AndBlank(img[i]);
    }
  }

  /**
   Wherever a rewrite stops, the next boot's comparison matches exactly when the whole image from
   address 0 is there, or when it matched before and the erase never reached the application.
   */
  lemma HealingTestIsExact(radio: seq<cell>, img: seq<cell>, e: nat, w: nat)
    requires GoodImage(img) && RewriteOrder(img, e, w) && EraseSpan(|img|) <= |radio|
    ensures var now := AfterRewrite(radio, img, e, w);
            AppMatches(now, img) <==>
              Landed(now, img) || (AppMatches(radio, img) && e * SECTOR <= APP_IMAGE_ADDR)
  {
    var now, n := AfterRewrite(radio, img, e, w), |img|;
    forall i | 0 <= i < |radio|
      ensures now[i] == if i < w then img[i] else if i < e * SECTOR then BLANK else radio[i]
    {
      RewriteContent(radio, img, e, w, i);
    }
    ShortEraseKeepsApp(radio, img, e, w);
    if e * SECTOR <= APP_IMAGE_ADDR {
      assert Landed(now, img) ==> AppMatches(now, img) by {
        assert now[APP_IMAGE_ADDR..n] == now[..n][APP_IMAGE_ADDR..];
      }
    } else if w <= APP_DESC_ADDR {
      MagicGone(now, img);
    } else {
      forall i | 0 <= i < APP_IMAGE_ADDR ensures now[i] == img[i] {}
      if AppMatches(now, img) {
        assert now[..n] == now[..APP_IMAGE_ADDR] + now[APP_IMAGE_ADDR..n];
        assert img == img[..APP_IMAGE_ADDR] + img[APP_IMAGE_ADDR..];
        assert now[..APP_IMAGE_ADDR] == img[..APP_IMAGE_ADDR];
      }
      assert now[APP_IMAGE_ADDR..n] == now[..n][APP_IMAGE_ADDR..];
    }
  }

  lemma LandedMatches(radio: seq<cell>, img: seq<cell>)
    requires APP_IMAGE_ADDR <= |img| <= |radio| && Landed(radio, img)
    ensures AppMatches(radio, img)
  {
    assert radio[APP_IMAGE_ADDR..|img|] == radio[..|img|][APP_IMAGE_ADDR..];
  }

  lemma MagicGone(now: seq<cell>, img: seq<cell>)
    requires GoodImage(img) && |img| <= |now| && now[APP_DESC_ADDR] == BLANK
    ensures !AppMatches(now, img) && !Landed(now, img)
  {
    var n, k := |img|, APP_DESC_ADDR - APP_IMAGE_ADDR;
    assert now[APP_IMAGE_ADDR..n][k] == BLANK && img[APP_IMAGE_ADDR..][k] == 0x32;
    assert now[..n][APP_DESC_ADDR] == BLANK;
  }

  /** A radio that did not match before a rewrite cannot look healthy until every byte is there. */
  lemma InterruptedRewriteIsSeen(radio: seq<cell>, img: seq<cell>, e: nat, w: nat)
    requires GoodImage(img) && RewriteOrder(img, e, w) && EraseSpan(|img|) <= |radio|
    requires !AppMatches(radio, img)
    ensures AppMatches(AfterRewrite(radio, img, e, w), img) <==> Landed(AfterRewrite(radio, img, e, w), img)
    ensures Landed(AfterRewrite(radio, img, e, w), img) ==> w >= TrimLen(img)
  {
    HealingTestIsExact(radio, img, e, w);
    ShortEraseKeepsApp(radio, img, e, w);
    if e * SECTOR > APP_IMAGE_ADDR && Landed(AfterRewrite(radio, img, e, w), img) {
      EveryByteLanded(radio, img, e, w);
    }
  }

  lemma EveryByteLanded(radio: seq<cell>, img: seq<cell>, e: nat, w: nat)
    requires GoodImage(img) && RewriteOrder(img, e, w) && EraseSpan(|img|) <= |radio|
    requires e * SECTOR > APP_IMAGE_ADDR && Landed(AfterRewrite(radio, img, e, w), img)
    ensures w >= TrimLen(img)
  {
    var now, t := AfterRewrite(radio, img, e, w), TrimLen(img);
    CellLanded(now, img, APP_DESC_ADDR);
    RewriteContent(radio, img, e, w, APP_DESC_ADDR);
    if t > 0 {
      CellLanded(now, img, t - 1);
      RewriteContent(radio, img, e, w, t - 1);
    }
  }

  lemma CellLanded(now: seq<cell>, img: seq<cell>, i: nat)
    requires i < |img| <= |now| && Landed(now, img)
    ensures now[i] == img[i]
  {
    assert now[..|img|][i] == now[i];
  }

  lemma ShortEraseKeepsApp(radio: seq<cell>, img: seq<cell>, e: nat, w: nat)
    requires GoodImage(img) && RewriteOrder(img, e, w) && EraseSpan(|img|) <= |radio|
    ensures e * SECTOR <= APP_IMAGE_ADDR ==>
              (AppMatches(AfterRewrite(radio, img, e, w), img) <==> AppMatches(radio, img))
  {
    if e * SECTOR <= APP_IMAGE_ADDR {
      var now := AfterRewrite(radio, img, e, w);
      forall i | APP_IMAGE_ADDR <= i < |radio| ensures now[i] == radio[i] {
        RewriteContent(radio, img, e, w, i);
      }
      assert now[APP_IMAGE_ADDR..|img|] == radio[APP_IMAGE_ADDR..|img|];
    }
  }

  /**
   The exception is real: a radio in sync whose verification fails for another reason is rewritten
   "to be safe"; cut after the first sector, it has lost its boot loader and looks in sync for good.
   */
  lemma LostBootLoaderLooksHealthy(radio: seq<cell>, img: seq<cell>)
    requires GoodImage(img) && EraseSpan(|img|) <= |radio|
    requires Landed(radio, img) && img[0] == IMAGE_MAGIC
    ensures RewriteOrder(img, 1, 0)
    ensures AppMatches(AfterRewrite(radio, img, 1, 0), img)
    ensures AfterRewrite(radio, img, 1, 0)[0] == BLANK && !Landed(AfterRewrite(radio, img, 1, 0), img)
  {
    assert radio[APP_IMAGE_ADDR..|img|] == radio[..|img|][APP_IMAGE_ADDR..];
    HealingTestIsExact(radio, img, 1, 0);
    RewriteContent(radio, img, 1, 0, 0);
    assert AfterRewrite(radio, img, 1, 0)[..|img|][0] == BLANK;
  }

  // ---- The sync itself ----

  /** Trims the erased tail of the mapped partition. */
  method TrimPartition(part: seq<cell>) returns (size: nat)
    ensures size == ImageSize(part)
  {
    size := |part|;
    while size > 0 && part[size - 1] == BLANK
      invariant size <= |part|
      invariant forall i :: size <= i < |part| ==> part[i] == BLANK
    {
      size := size - 1;
    }
    TrimIsUnique(part, size);
    size := (size + 3) / 4 * 4;
  }

  /** Flash steps of a complete rewrite. */
  function FullRewrite(img: seq<cell>): (n: nat) {
    EraseSpan(|img|) / SECTOR + |img|
  }

  lemma WholeRewriteLands(radio: seq<cell>, img: seq<cell>, e: nat)
    requires RewriteOrder(img, e, |img|) && 0 < |img| && EraseSpan(|img|) <= |radio|
    ensures Landed(AfterRewrite(radio, img, e, |img|), img)
  {
    forall i | 0 <= i < |img| ensures AfterRewrite(radio, img, e, |img|)[i] == img[i] {
      RewriteContent(radio, img, e, |img|, i);
    }
  }

  /**
   One boot.  `answers` tells whether the radio enters download mode, `compared` and `finished` whether
   the deciding comparison and the final verification could be carried out; the radio's supply lasts
   for `radio.power` flash steps.  A boot that ends well leaves the whole image on the radio exactly
   when it was there before or the comparison did not wave the radio through.
   */
  method Sync(part: seq<cell>, radio: Flash, answers: bool, compared: bool, finished: bool)
    returns (res: Outcome, ghost e: nat, w: nat)
    requires |part| % SECTOR == 0 && |part| <= radio.mem.Length
    modifies radio, radio.mem
    ensures res.NoImage? <==> !Accepts(part)
    ensures res.Unreachable? <==> Accepts(part) && !answers
    ensures res.NoImage? || res.Unreachable? || res.InSync? ==> radio.mem[..] == old(radio.mem[..])
    ensures Accepts(part) ==>
              var img := part[..ImageSize(part)];
              GoodImage(img) && EraseSpan(|img|) <= radio.mem.Length &&
              (res.InSync? <==> answers && compared && AppMatches(old(radio.mem[..]), img)) &&
              (res.Interrupted? || res.Rewritten? ==>
                RewriteOrder(img, e, w) && radio.mem[..] == AfterRewrite(old(radio.mem[..]), img, e, w)) &&
              (res.Interrupted? || res.Rewritten? ==> e + w == Min(old(radio.power), FullRewrite(img))) &&
              (res.Rewritten? ==> Landed(radio.mem[..], img)) &&
              (res.Rewritten? <==> answers && !(compared && AppMatches(old(radio.mem[..]), img))
                                   && old(radio.power) >= FullRewrite(img) && finished) &&
              (res.InSync? || res.Rewritten? ==>
                (Landed(radio.mem[..], img) <==>
                  Landed(old(radio.mem[..]), img) || !(compared && AppMatches(old(radio.mem[..]), img))))
  {
    e, w := 0, 0;
    var size := TrimPartition(part);
    ImageSizeFits(part);
    if size <= APP_DESC_ADDR + APP_DESC_SIZE || part[0] != IMAGE_MAGIC || !DescriptorValid(part) {
      return NoImage, e, w;
    }
    if !answers {
      return Unreachable, e, w;
    }
    var img := part[..size];
    assert EraseSpan(size) <= |part|;
    var same := AppMatches(radio.mem[..], img);
    if compared && same {
      return InSync, e, w;
    }
    ghost var was := radio.mem[..];
    var erased := radio.Erase(EraseSpan(size));
    e := erased;
    assert radio.mem[..] == AfterRewrite(was, img, e, 0);
    if erased * SECTOR != EraseSpan(size) {
      return Interrupted, e, w;
    }
    w := WriteImage(radio, img, e, was);
    if w != size {
      return Interrupted, e, w;
    }
    WholeRewriteLands(was, img, e);
    var verified := finished && radio.mem[..size] == img;
    if !verified {
      return Interrupted, e, w;
    }
    assert radio.mem[..][..size] == radio.mem[..size];
    res := Rewritten;
  }

  /** The block loop behind a complete erase. */
  method WriteImage(radio: Flash, img: seq<cell>, ghost e: nat, ghost was: seq<cell>) returns (w: nat)
    requires |img| <= radio.mem.Length && radio.mem[..] == AfterRewrite(was, img, e, 0)
    modifies radio, radio.mem
    ensures w == Min(old(radio.power), |img|) && radio.power == old(radio.power) - w
    ensures radio.mem[..] == AfterRewrite(was, img, e, w)
  {
    w := 0;
    while w < |img|
      invariant w <= |img| && radio.power == old(radio.power) - w
      invariant radio.mem[..] == AfterRewrite(was, img, e, w)
    {
      var chunk := if |img| - w < BLOCK then |img| - w else BLOCK;
      var landed := radio.Write(w, img[w..w + chunk]);
      ProgramGlue(ErasedTo(was, e * SECTOR), img, w, landed);
      LandedPart(img, w, chunk, landed);
      w := w + landed;
      if landed != chunk {
        return;
      }
    }
  }

  lemma LandedPart(img: seq<cell>, at: nat, n: nat, k: nat)
    requires k <= n && at + n <= |img|
    ensures img[at..at + n][..k] == img[at..at + k]
  {
  }

  lemma ProgramGlue(s: seq<cell>, img: seq<cell>, a: nat, k: nat)
    requires a + k <= |img| <= |s|
    ensures Programmed(Programmed(s, 0, img[..a]), a, img[a..a + k]) == Programmed(s, 0, img[..a + k])
  {
    var now, want := Programmed(Programmed(s, 0, img[..a]), a, img[a..a + k]), Programmed(s, 0, img[..a + k]);
    assert forall i :: 0 <= i < |s| ==> now[i] == want[i];
  }

  // ---- Lives of a radio ----

  /** Between boots the radio's firmware rewrites its own data below the application. */
  datatype Event =
    | RadioRuns(low: seq<cell>)
    | Boot(answers: bool, compared: bool, finished: bool, power: nat)

  predicate WellFormed(events: seq<Event>) {
    forall i :: 0 <= i < |events| && events[i].RadioRuns? ==> |events[i].low| == APP_IMAGE_ADDR
  }

  predicate AlwaysCompared(events: seq<Event>) {
    forall i :: 0 <= i < |events| && events[i].Boot? && events[i].answers ==> events[i].compared
  }

  /** A boot that rewrites without knowing why is cut before its first step or not before the application. */
  predicate NotShallow(e: Event) {
    e.Boot? && e.answers && !e.compared ==> e.power == 0 || e.power * SECTOR > APP_IMAGE_ADDR
  }

  predicate NeverShallow(events: seq<Event>) {
    forall i :: 0 <= i < |events| ==> NotShallow(events[i])
  }

  method RunRadio(radio: Flash, low: seq<cell>)
    requires |low| == APP_IMAGE_ADDR <= radio.mem.Length
    modifies radio.mem
    ensures radio.mem[..] == low + old(radio.mem[..])[APP_IMAGE_ADDR..]
  {
    forall i | 0 <= i < APP_IMAGE_ADDR {
      radio.mem[i] := low[i];
    }
  }

  /** What looks in sync has received everything, or nothing was ever written. */
  ghost predicate Trusted(radio: seq<cell>, flashed: seq<cell>, start: seq<cell>, img: seq<cell>)
    requires APP_IMAGE_ADDR <= |img| <= |radio| && |img| <= |flashed|
  {
    AppMatches(radio, img) ==> Landed(flashed, img) || flashed == start
  }

  /**
   Any number of boots, each interrupted anywhere, with the radio running in between.  `flashed` is
   what the radio would hold if only the syncs had written to it.  Unless a rewrite made without a
   comparison is cut below the application, a radio that looks in sync has received the whole image
   from address 0, or looked so from the start and was never written to.
   */
  method Live(part: seq<cell>, radio: Flash, events: seq<Event>) returns (outs: seq<Outcome>, ghost flashed: seq<cell>)
    requires |part| % SECTOR == 0 && |part| <= radio.mem.Length && Accepts(part)
    requires WellFormed(events)
    modifies radio, radio.mem
    ensures var img := part[..ImageSize(part)];
            && GoodImage(img) && |flashed| == radio.mem.Length
            && flashed[APP_IMAGE_ADDR..] == radio.mem[APP_IMAGE_ADDR..]
            && (NeverShallow(events) ==> Trusted(radio.mem[..], flashed, old(radio.mem[..]), img))
            // once in sync, always in sync: no boot writes anything again
            && (AlwaysCompared(events) && AppMatches(old(radio.mem[..]), img) ==>
                 flashed == old(radio.mem[..]) && forall o :: o in outs ==> o.InSync? || o.Unreachable?)
            // a completed rewrite puts the radio in sync, and it is the last one
            && (AlwaysCompared(events) ==>
                 (Rewritten in outs ==> AppMatches(radio.mem[..], img)) &&
                 forall i, j :: 0 <= i < j < |outs| && outs[i].Rewritten? ==> outs[j].InSync? || outs[j].Unreachable?)
  {
    outs, flashed := [], radio.mem[..];
    ghost var start := radio.mem[..];
    ghost var img := part[..ImageSize(part)];
    ImageIsGood(part);
    for k := 0 to |events|
      invariant |flashed| == radio.mem.Length
      invariant flashed[APP_IMAGE_ADDR..] == radio.mem[APP_IMAGE_ADDR..]
      invariant NeverShallow(events) ==> Trusted(radio.mem[..], flashed, start, img)
      invariant AlwaysCompared(events) && AppMatches(start, img) ==>
                  && AppMatches(radio.mem[..], img) && flashed == start
                  && forall o :: o in outs ==> o.InSync? || o.Unreachable?
      invariant AlwaysCompared(events) && Rewritten in outs ==> AppMatches(radio.mem[..], img)
      invariant AlwaysCompared(events) ==>
                  forall i, j :: 0 <= i < j < |outs| && outs[i].Rewritten? ==> outs[j].InSync? || outs[j].Unreachable?
    {
      ghost var was := radio.mem[..];
      match events[k] {
        case RadioRuns(low) =>
          RunRadio(radio, low);
          SameAppRegion(radio.mem[..], was, img);
        case Boot(answers, compared, finished, power) =>
          var res;
          res, flashed := BootOnce(part, radio, events[k], start, flashed);
          outs := outs + [res];
      }
    }
  }

  lemma ImageIsGood(part: seq<cell>)
    requires |part| % SECTOR == 0 && Accepts(part)
    ensures var img := part[..ImageSize(part)]; GoodImage(img) && EraseSpan(|img|) <= |part|
  {
    ImageSizeFits(part);
    SpanFits(ImageSize(part), |part|);
    var img := part[..ImageSize(part)];
    assert img[APP_DESC_ADDR..APP_DESC_ADDR + 4] == part[APP_DESC_ADDR..APP_DESC_ADDR + 4];
  }

  lemma SpanFits(n: nat, size: nat)
    requires n <= size && size % SECTOR == 0
    ensures EraseSpan(n) <= size
  {
  }

  /** One boot of a life; the twin follows every rewrite. */
  method BootOnce(part: seq<cell>, radio: Flash, e: Event, ghost start: seq<cell>, ghost twin: seq<cell>)
    returns (res: Outcome, ghost twin': seq<cell>)
    requires |part| % SECTOR == 0 && |part| <= radio.mem.Length == |twin| && Accepts(part) && e.Boot?
    requires twin[APP_IMAGE_ADDR..] == radio.mem[APP_IMAGE_ADDR..]
    modifies radio, radio.mem
    ensures var img := part[..ImageSize(part)]; var was := old(radio.mem[..]);
            && |twin'| == radio.mem.Length && twin'[APP_IMAGE_ADDR..] == radio.mem[APP_IMAGE_ADDR..]
            && |img| <= |part| && GoodImage(img)
            && (NotShallow(e) && Trusted(was, twin, start, img) ==> Trusted(radio.mem[..], twin', start, img))
            && ((e.answers ==> e.compared) && AppMatches(was, img) ==>
                 (res.InSync? || res.Unreachable?) && twin' == twin && radio.mem[..] == was)
            && (res.Rewritten? ==> AppMatches(radio.mem[..], img))
  {
    ImageIsGood(part);
    ghost var img := part[..ImageSize(part)];
    ghost var was := radio.mem[..];
    radio.PowerUp(e.power);
    ghost var erased;
    var written;
    res, erased, written := Sync(part, radio, e.answers, e.compared, e.finished);
    twin' := twin;
    if res.Interrupted? || res.Rewritten? {
      twin' := AfterRewrite(twin, img, erased, written);
      RewriteTwin(twin, was, img, erased, written);
      if e.power == 0 {
        NothingRewritten(twin, img);
      }
      if res.Rewritten? {
        HealingTestIsExact(was, img, erased, written);
      }
    }
  }

  lemma NothingRewritten(radio: seq<cell>, img: seq<cell>)
    ensures AfterRewrite(radio, img, 0, 0) == radio
  {
  }

  lemma SameAppRegion(a: seq<cell>, b: seq<cell>, img: seq<cell>)
    requires APP_IMAGE_ADDR <= |img| <= |a| == |b| && a[APP_IMAGE_ADDR..] == b[APP_IMAGE_ADDR..]
    ensures AppMatches(a, img) <==> AppMatches(b, img)
  {
    assert a[APP_IMAGE_ADDR..|img|] == a[APP_IMAGE_ADDR..][..|img| - APP_IMAGE_ADDR];
    assert b[APP_IMAGE_ADDR..|img|] == b[APP_IMAGE_ADDR..][..|img| - APP_IMAGE_ADDR];
  }

  /**
   Two memories that agree on the application region keep agreeing; and where the rewrite was needed or
   reached the application, looking healthy means that the twin has the whole image.
   */
  lemma RewriteTwin(twin: seq<cell>, radio: seq<cell>, img: seq<cell>, e: nat, w: nat)
    requires GoodImage(img) && RewriteOrder(img, e, w) && EraseSpan(|img|) <= |radio| == |twin|
    requires twin[APP_IMAGE_ADDR..] == radio[APP_IMAGE_ADDR..]
    ensures AfterRewrite(twin, img, e, w)[APP_IMAGE_ADDR..] == AfterRewrite(radio, img, e, w)[APP_IMAGE_ADDR..]
    ensures AppMatches(AfterRewrite(radio, img, e, w), img) <==>
            Landed(AfterRewrite(twin, img, e, w), img) || (AppMatches(radio, img) && e * SECTOR <= APP_IMAGE_ADDR)
  {
    var a, b := AfterRewrite(twin, img, e, w), AfterRewrite(radio, img, e, w);
    forall i | APP_IMAGE_ADDR <= i < |radio| ensures a[i] == b[i] {
      RewriteContent(twin, img, e, w, i);
      RewriteContent(radio, img, e, w, i);
      assert twin[APP_IMAGE_ADDR..][i - APP_IMAGE_ADDR] == radio[APP_IMAGE_ADDR..][i - APP_IMAGE_ADDR];
    }
    SameAppRegion(twin, radio, img);
    SameAppRegion(a, b, img);
    HealingTestIsExact(twin, img, e, w);
  }
}
