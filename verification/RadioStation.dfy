/**
 A station's life: uploads that stage an image, boots that sync it to the radio, and the radio running
 in between, each cut anywhere.  What a boot reports is tied to what was last committed.
 */
module RadioStation {
  import opened NorFlash
  import RadioStage
  import RadioSync

  datatype Day =
    | Upload(up: RadioStage.Upload)
    | Boot(answers: bool, compared: bool, finished: bool, power: nat)
    | RadioRuns(low: seq<cell>)

  /** What came of a day; for a boot, also what the radio held when it ended. */
  datatype Report = Staged(stage: RadioStage.Outcome) | Synced(sync: RadioSync.Outcome, holds: seq<cell>) | Ran

  predicate WellFormed(days: seq<Day>) {
    forall i :: 0 <= i < |days| && days[i].RadioRuns? ==> |days[i].low| == RadioStage.APP_IMAGE_ADDR
  }

  /** The partition content that the last committed upload stands for; `initial` when there was none. */
  function LastStaged(initial: seq<cell>, days: seq<Day>, reports: seq<Report>): (s: seq<cell>)
    requires |days| == |reports|
    ensures |s| == |initial|
  {
    if |days| == 0 then initial
    else
      var n := |days| - 1;
      if days[n].Upload? && reports[n] == Staged(RadioStage.Committed) && |days[n].up.body| <= |initial|
      then RadioStage.Image(|initial|, days[n].up.body)
      else LastStaged(initial, days[..n], reports[..n])
  }

  /** A boot that ends well does so for the last committed image, and then the radio holds it. */
  ghost predicate Honest(initial: seq<cell>, days: seq<Day>, reports: seq<Report>, k: nat)
    requires k < |days| == |reports|
  {
    var r, part := reports[k], LastStaged(initial, days[..k], reports[..k]);
    r.Synced? && (r.sync.Rewritten? || r.sync.InSync?) ==>
      && RadioStage.Accepts(part) && |part| <= |r.holds|
      && var img := part[..RadioStage.ImageSize(part)];
         && RadioSync.GoodImage(img) && RadioSync.AppMatches(r.holds, img)
         && (r.sync.Rewritten? ==> RadioSync.Landed(r.holds, img))
  }

  method Run(stage: Flash, radio: Flash, days: seq<Day>) returns (reports: seq<Report>)
    requires stage != radio && stage.mem != radio.mem
    requires 0 < stage.mem.Length <= radio.mem.Length && stage.mem.Length % SECTOR == 0
    requires WellFormed(days) && RadioStage.APP_IMAGE_ADDR <= radio.mem.Length
    modifies stage, stage.mem, radio, radio.mem
    ensures |reports| == |days|
    ensures stage.mem[0] != BLANK ==> stage.mem[..] == LastStaged(old(stage.mem[..]), days, reports)
    ensures forall k :: 0 <= k < |days| ==> Honest(old(stage.mem[..]), days, reports, k)
  {
    reports := [];
    ghost var initial := stage.mem[..];
    for n := 0 to |days|
      invariant |reports| == n
      invariant stage.mem[0] != BLANK ==> stage.mem[..] == LastStaged(initial, days[..n], reports)
      invariant forall k :: 0 <= k < n ==> Honest(initial, days[..n], reports, k)
    {
      ghost var had, was := reports, stage.mem[..];
      var r := LiveDay(stage, radio, days[n]);
      reports := reports + [r];
      assert days[..n + 1] == days[..n] + [days[n]];
      assert stage.mem[0] == stage.mem[..][0];
      Extend(initial, days[..n], had, days[n], r);
    }
    assert days[..|days|] == days;
  }

  lemma Extend(initial: seq<cell>, days: seq<Day>, reports: seq<Report>, d: Day, r: Report)
    requires |days| == |reports|
    ensures LastStaged(initial, days + [d], reports + [r]) ==
            if d.Upload? && r == Staged(RadioStage.Committed) && |d.up.body| <= |initial|
            then RadioStage.Image(|initial|, d.up.body) else LastStaged(initial, days, reports)
    ensures forall k :: 0 <= k < |days| && Honest(initial, days, reports, k) ==>
              Honest(initial, days + [d], reports + [r], k)
  {
    assert (days + [d])[..|days|] == days && (reports + [r])[..|days|] == reports;
    forall k | 0 <= k < |days| && Honest(initial, days, reports, k)
      ensures Honest(initial, days + [d], reports + [r], k)
    {
      assert (days + [d])[..k] == days[..k] && (reports + [r])[..k] == reports[..k];
    }
  }

  method LiveDay(stage: Flash, radio: Flash, d: Day) returns (r: Report)
    requires stage != radio && stage.mem != radio.mem
    requires 0 < stage.mem.Length <= radio.mem.Length && stage.mem.Length % SECTOR == 0
    requires d.RadioRuns? ==> |d.low| == RadioStage.APP_IMAGE_ADDR <= radio.mem.Length
    modifies stage, stage.mem, radio, radio.mem
    ensures r.Staged? <==> d.Upload?
    ensures d.Upload? ==>
              match r.stage
              case Committed => |d.up.body| <= stage.mem.Length
                                && stage.mem[..] == RadioStage.Image(stage.mem.Length, d.up.body)
              case _ => stage.mem[..] == old(stage.mem[..]) || stage.mem[0] == BLANK
    ensures !d.Upload? ==> stage.mem[..] == old(stage.mem[..])
    ensures r.Synced? && (r.sync.Rewritten? || r.sync.InSync?) ==>
              var part := stage.mem[..];
              && RadioStage.Accepts(part) && |r.holds| == radio.mem.Length
              && var img := part[..RadioStage.ImageSize(part)];
                 && RadioSync.GoodImage(img) && RadioSync.AppMatches(r.holds, img)
                 && (r.sync.Rewritten? ==> RadioSync.Landed(r.holds, img))
  {
    match d
    case Upload(up) =>
      var o := RadioStage.HandleUpload(stage, up);
      r := Staged(o);
    case RadioRuns(low) =>
      RadioSync.RunRadio(radio, low);
      r := Ran;
    case Boot(answers, compared, finished, power) =>
      radio.PowerUp(power);
      var o, e, w := RadioSync.Sync(stage.mem[..], radio, answers, compared, finished);
      r := Synced(o, radio.mem[..]);
      if o.Rewritten? {
        var img := stage.mem[..RadioStage.ImageSize(stage.mem[..])];
        assert img == stage.mem[..][..RadioStage.ImageSize(stage.mem[..])];
        RadioSync.LandedMatches(radio.mem[..], img);
      }
  }

  /** What landed from a committed partition is the uploaded body, up to trailing blanks. */
  lemma RewrittenHoldsTheBody(size: nat, body: seq<cell>, holds: seq<cell>)
    requires |body| <= size <= |holds| && RadioStage.ImageSize(body) <= size
    requires RadioSync.Landed(holds, RadioStage.Image(size, body)[..RadioStage.ImageSize(body)])
    ensures var n := RadioStage.TrimLen(body);
            holds[..n] == body[..n] && forall i :: n <= i < |body| ==> body[i] == BLANK
  {
    var part, n := RadioStage.Image(size, body), RadioStage.TrimLen(body);
    var img := part[..RadioStage.ImageSize(body)];
    forall i | 0 <= i < n ensures holds[i] == body[i] {
      RadioSync.CellLanded(holds, img, i);
    }
  }
}
