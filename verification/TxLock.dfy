/**
 The bridge's single-writer soft lock.  `Bridge` is the mutable singleton; every method is one
 critical section of its mutex.  Whole runs are folds of the same steps over event lists.
 */
module TxLock {
  import opened Bytes

  type Sink = nat  // identity of a sink object

  const MAX_SINKS := 8
  const ID_MAX := 15
  const IDLE_US := 5_000_000

  datatype Mode = Auto | Pinned

  datatype Lock = Lock(sinks: seq<Sink>, ids: seq<string>, mode: Mode, owner: int, lastUs: int,
                       rejected: seq<nat>, rejectedTotal: nat)

  const IDLE := Lock([], [], Auto, -1, 0, [0, 0, 0, 0, 0, 0, 0, 0], 0)

  ghost predicate Sound(s: Lock) {
    && |s.sinks| == |s.ids| <= 8 && |s.rejected| == 8
    && -1 <= s.owner < |s.sinks|
    && (s.mode == Pinned ==> s.owner >= 0)
  }

  // ---- One critical section each ----

  /** First position of `who`, or -1. */
  function IndexOf(sinks: seq<Sink>, who: Sink): (i: int)
    ensures -1 <= i < |sinks|
    ensures i >= 0 ==> sinks[i] == who && who !in sinks[..i]
    ensures i < 0 ==> who !in sinks
  {
    if |sinks| == 0 then -1
    else if sinks[|sinks| - 1] == who && IndexOf(sinks[..|sinks| - 1], who) < 0 then |sinks| - 1
    else IndexOf(sinks[..|sinks| - 1], who)
  }

  function IdIndex(ids: seq<string>, id: string): (i: int)
    ensures -1 <= i < |ids|
    ensures i >= 0 ==> ids[i] == id && |id| > 0 && id !in ids[..i]
    ensures i < 0 && |id| > 0 ==> id !in ids
  {
    if |ids| == 0 || |id| == 0 then -1
    else if ids[|ids| - 1] == id && IdIndex(ids[..|ids| - 1], id) < 0 then |ids| - 1
    else IdIndex(ids[..|ids| - 1], id)
  }

  function Attach(s: Lock, who: Sink, id: string): (t: Lock) {
    if |s.sinks| >= MAX_SINKS then s
    else s.(sinks := s.sinks + [who], ids := s.ids + [if |id| <= ID_MAX then id else id[..ID_MAX]])
  }

  /** `None` is a system call: it bypasses the lock. */
  predicate Admits(s: Lock, who: Option<Sink>, now: int) {
    who.None? ||
    var me := IndexOf(s.sinks, who.value);
    if s.mode == Pinned then me >= 0 && me == s.owner
    else me >= 0 && (s.owner < 0 || now - s.lastUs > IDLE_US || me == s.owner)
  }

  function Check(s: Lock, who: Option<Sink>, now: int): (t: Lock) {
    if who.None? then s
    else
      var me := IndexOf(s.sinks, who.value);
      if Admits(s, who, now) then s.(owner := me)
      else s.(rejectedTotal := s.rejectedTotal + 1,
              rejected := if 0 <= me < |s.rejected| then s.rejected[me := s.rejected[me] + 1] else s.rejected)
  }

  function Done(s: Lock, now: int): (t: Lock) {
    s.(lastUs := now)
  }

  predicate AsksForAuto(id: Option<string>) {
    id.None? || id.value == "" || id.value == "auto"
  }

  function SetMaster(s: Lock, id: Option<string>): (t: Lock) {
    if AsksForAuto(id) then s.(mode := Auto, owner := -1)
    else
      var i := IdIndex(s.ids, id.value);
      if i < 0 then s else s.(mode := Pinned, owner := i)
  }

  class Bridge {
    var sinks: seq<Sink>
    var ids: seq<string>
    var mode: Mode
    var owner: int
    var lastUs: int
    const rejected: array<nat>
    var rejectedTotal: nat

    ghost function View(): (s: Lock)
      reads this, rejected
    {
      Lock(sinks, ids, mode, owner, lastUs, rejected[..], rejectedTotal)
    }

    constructor ()
      ensures View() == IDLE && fresh(rejected)
    {
      sinks, ids, mode, owner, lastUs, rejectedTotal := [], [], Auto, -1, 0, 0;
      rejected := new nat[MAX_SINKS](_ => 0);
    }

    method AttachSink(who: Sink, id: string) returns (ok: bool)
      modifies this
      ensures View() == Attach(old(View()), who, id)
      ensures ok <==> |old(sinks)| < 8
    {
      ok := |sinks| < MAX_SINKS;
      if ok {
        sinks, ids := sinks + [who], ids + [if |id| <= ID_MAX then id else id[..ID_MAX]];
      }
    }

    method FindSink(who: Sink) returns (i: int)
      ensures i == IndexOf(sinks, who)
    {
      i := 0;
      while i < |sinks|
        invariant 0 <= i <= |sinks| && who !in sinks[..i]
      {
        if sinks[i] == who {
          return;
        }
        i := i + 1;
      }
      i := -1;
    }

    method FindId(id: string) returns (i: int)
      ensures i == IdIndex(ids, id)
    {
      i := 0;
      while i < |ids|
        invariant 0 <= i <= |ids| && (|id| > 0 ==> id !in ids[..i])
      {
        if ids[i] != "" && ids[i] == id {
          IdIndexIsFirst(ids, id, i);
          return;
        }
        i := i + 1;
      }
      i := -1;
    }

    /** The lock check of a transmission; the transmission itself happens outside the mutex. */
    method CheckTx(who: Option<Sink>, now: int) returns (allowed: bool)
      requires Sound(View())
      modifies this, rejected
      ensures View() == Check(old(View()), who, now)
      ensures allowed <==> Admits(old(View()), who, now)
    {
      if who.None? {
        return true;
      }
      var me := FindSink(who.value);
      allowed := false;
      if mode == Pinned {
        allowed := me >= 0 && me == owner;
      } else {
        var idle := owner < 0 || now - lastUs > IDLE_US;
        allowed := me >= 0 && (idle || me == owner);
        if allowed && me != owner {
          owner := me;
        }
      }
      if !allowed {
        if me >= 0 {
          rejected[me] := rejected[me] + 1;
        }
        rejectedTotal := rejectedTotal + 1;
      }
    }

    /** After a successful transmission. */
    method TxDone(now: int)
      modifies this`lastUs
      ensures View() == Done(old(View()), now)
    {
      lastUs := now;
    }

    method SetTxMaster(id: Option<string>) returns (found: bool)
      modifies this
      ensures View() == SetMaster(old(View()), id)
      ensures found <==> AsksForAuto(id) || IdIndex(old(ids), id.value) >= 0
    {
      if AsksForAuto(id) {
        mode, owner := Auto, -1;
        return true;
      }
      var i := FindId(id.value);
      found := i >= 0;
      if found {
        mode, owner := Pinned, i;
      }
    }
  }

  lemma {:induction false} IdIndexIsFirst(ids: seq<string>, id: string, i: nat)
    requires i < |ids| && ids[i] == id && |id| > 0 && id !in ids[..i]
    ensures IdIndex(ids, id) == i
  {
    var n := |ids| - 1;
    if i < n {
      assert ids[..n][..i] == ids[..i];
      IdIndexIsFirst(ids[..n], id, i);
    } else if IdIndex(ids[..n], id) >= 0 {
      assert ids[..n][IdIndex(ids[..n], id)] in ids[..i];
    }
  }

  // ---- Whole runs ----

  datatype Event =
    | AttachEv(sink: Sink, name: string)
    | CheckEv(who: Option<Sink>, now: int)
    | DoneEv(now: int)
    | MasterEv(master: Option<string>)

  function After(s: Lock, e: Event): (t: Lock) {
    match e
    case AttachEv(who, id) => Attach(s, who, id)
    case CheckEv(who, now) => Check(s, who, now)
    case DoneEv(now) => Done(s, now)
    case MasterEv(id) => SetMaster(s, id)
  }

  function Play(events: seq<Event>): (s: Lock) {
    if |events| == 0 then IDLE else After(Play(events[..|events| - 1]), events[|events| - 1])
  }

  lemma {:induction false} PlayIsSound(events: seq<Event>)
    ensures Sound(Play(events))
  {
    if |events| > 0 {
      PlayIsSound(events[..|events| - 1]);
    }
  }

  /** Time stamps never run backwards. */
  ghost predicate Monotone(events: seq<Event>) {
    forall i, j :: 0 <= i < j < |events| && Stamp(events[i]).Some? && Stamp(events[j]).Some? ==>
      Stamp(events[i]).value <= Stamp(events[j]).value
  }

  function Stamp(e: Event): (t: Option<int>) {
    match e
    case CheckEv(_, now) => Some(now)
    case DoneEv(now) => Some(now)
    case _ => None
  }

  lemma {:induction false} LastTxIsRemembered(events: seq<Event>, j: nat)
    requires Monotone(events) && j < |events| && events[j].DoneEv?
    ensures events[j].now <= Play(events).lastUs
  {
    var n := |events| - 1;
    if j < n {
      LastTxIsRemembered(events[..n], j);
      assert events[..n][j] == events[j];
      if events[n].DoneEv? {
        assert Stamp(events[j]).value <= Stamp(events[n]).value;
      }
    }
  }

  /**
   In AUTO mode the lock passes from one sink directly to another only at a lock check by the new
   owner, and then no transmission of anybody succeeded within the five seconds before it.
   */
  lemma TakeoverNeedsSilence(events: seq<Event>, e: Event)
    requires Monotone(events)
    requires var s := Play(events); var t := After(s, e);
             s.mode == t.mode == Auto && s.owner >= 0 && t.owner >= 0 && s.owner != t.owner
    ensures e.CheckEv? && e.who.Some? && IndexOf(Play(events).sinks, e.who.value) == After(Play(events), e).owner
    ensures forall j :: 0 <= j < |events| && events[j].DoneEv? ==> e.now - events[j].now > 5_000_000
  {
    TakeoverIsACheck(Play(events), e);
    forall j | 0 <= j < |events| && events[j].DoneEv? ensures e.now - events[j].now > 5_000_000 {
      LastTxIsRemembered(events, j);
    }
  }

  lemma TakeoverIsACheck(s: Lock, e: Event)
    requires var t := After(s, e);
             s.mode == t.mode == Auto && s.owner >= 0 && t.owner >= 0 && s.owner != t.owner
    ensures e.CheckEv? && e.who.Some? && IndexOf(s.sinks, e.who.value) == After(s, e).owner
    ensures e.now - s.lastUs > 5_000_000
  {
  }

  /** When the last transmission succeeded, if any did. */
  function LastTx(events: seq<Event>): (t: Option<int>) {
    if |events| == 0 then None
    else if events[|events| - 1].DoneEv? then Some(events[|events| - 1].now)
    else LastTx(events[..|events| - 1])
  }

  lemma {:induction false} StampIsLastTx(events: seq<Event>)
    ensures Play(events).lastUs == if LastTx(events).Some? then LastTx(events).value else 0
  {
    if |events| > 0 {
      StampIsLastTx(events[..|events| - 1]);
    }
  }

  lemma {:induction false} LastTxIsATx(events: seq<Event>)
    ensures LastTx(events).Some? <==> SomeTx(events)
    ensures LastTx(events).Some? ==> DoneEv(LastTx(events).value) in events
  {
    if |events| > 0 {
      var init, e := events[..|events| - 1], events[|events| - 1];
      assert events == init + [e];
      LastTxIsATx(init);
      assert forall x :: x in events <==> x in init || x == e;
    }
  }

  /** Somebody's transmission has succeeded since boot. */
  ghost predicate SomeTx(events: seq<Event>) {
    exists e :: e in events && e.DoneEv?
  }

  /** No transmission of anybody has succeeded within the five seconds before `now`. */
  ghost predicate Silent(events: seq<Event>, now: int) {
    forall j :: 0 <= j < |events| && events[j].DoneEv? ==> now - events[j].now > 5_000_000
  }

  /**
   In AUTO mode an attached sink that is not the owner is admitted exactly after five silent seconds,
   where boot counts as a transmission until somebody's has succeeded.  The owner's own claim plays no
   part in it.
   */
  lemma AdmittedExactlyAfterSilence(events: seq<Event>, who: Sink, now: int)
    requires Monotone(events)
    requires var s := Play(events);
             s.mode == Auto && s.owner >= 0 && IndexOf(s.sinks, who) >= 0 && IndexOf(s.sinks, who) != s.owner
    ensures Admits(Play(events), Some(who), now) <==> Silent(events, now) && (now > 5_000_000 || SomeTx(events))
    ensures After(Play(events), CheckEv(Some(who), now)).owner ==
            if Silent(events, now) && (now > 5_000_000 || SomeTx(events)) then IndexOf(Play(events).sinks, who)
            else Play(events).owner
  {
    SilentExactly(events, now);
  }

  lemma SilentExactly(events: seq<Event>, now: int)
    requires Monotone(events)
    ensures now - Play(events).lastUs > 5_000_000 <==> Silent(events, now) && (now > 5_000_000 || SomeTx(events))
  {
    StampIsLastTx(events);
    LastTxIsATx(events);
    forall j | 0 <= j < |events| && events[j].DoneEv? ensures events[j].now <= Play(events).lastUs && SomeTx(events) {
      LastTxIsRemembered(events, j);
      assert events[j] in events;
    }
  }

  /** Whoever takes the lock from another sink can lose it to any third one at the same instant. */
  lemma ClaimIsNoShield(events: seq<Event>, a: Sink, b: Sink, now: int)
    requires a != b
    requires var s := Play(events);
             && s.mode == Auto && s.owner >= 0
             && IndexOf(s.sinks, a) >= 0 && IndexOf(s.sinks, b) >= 0 && IndexOf(s.sinks, a) != s.owner
    requires Admits(Play(events), Some(a), now)
    ensures var t := After(Play(events), CheckEv(Some(a), now));
            t.owner == IndexOf(t.sinks, a) && Admits(t, Some(b), now) && Check(t, Some(b), now).owner != t.owner
  {
  }

  /** In the first five seconds after boot a claim does shield: nobody has transmitted, yet the second is refused. */
  lemma ClaimShieldsAfterBoot(now: int)
    requires 0 <= now <= 5_000_000
    ensures var events := [AttachEv(1, "a"), AttachEv(2, "b"), CheckEv(Some(1), now)];
            Silent(events, now) && Play(events).owner == 0 && !Admits(Play(events), Some(2), now)
  {
    TwoSinksAndAClaim(now);
  }

  /**
   What the lock does not give: a claim alone buys no grace period.  As long as the claimant's own
   transmission has not succeeded, another sink may take the lock at the very same instant.
   */
  lemma ClaimAloneGivesNoGrace(now: int)
    requires now > 5_000_000
    ensures var s := Play([AttachEv(1, "a"), AttachEv(2, "b"), CheckEv(Some(1), now)]);
            s.owner == 0 && Admits(s, Some(2), now) && Check(s, Some(2), now).owner == 1
  {
    TwoSinksAndAClaim(now);
  }

  lemma TwoSinksAndAClaim(now: int)
    ensures var s := Play([AttachEv(1, "a"), AttachEv(2, "b"), CheckEv(Some(1), now)]);
            s.mode == Auto && s.lastUs == 0 && s.sinks == [1, 2] && s.owner == 0 && IndexOf(s.sinks, 2) == 1
  {
    var a, b, claim := AttachEv(1, "a"), AttachEv(2, "b"), CheckEv(Some(1), now);
    assert [] + [a] == [a] && [a] + [b] == [a, b] && [a, b] + [claim] == [a, b, claim];
    PlayOneMore([], a);
    PlayOneMore([a], b);
    PlayOneMore([a, b], claim);
    assert [] + [1] + [2] == [1, 2];
    TwoSinks(1, 2);
    assert Play([a, b]).sinks == [1, 2];
  }

  lemma PlayOneMore(events: seq<Event>, e: Event)
    ensures Play(events + [e]) == After(Play(events), e)
  {
    assert (events + [e])[..|events|] == events;
  }

  lemma TwoSinks(a: Sink, b: Sink)
    requires a != b
    ensures IndexOf([a, b], a) == 0 && IndexOf([a, b], b) == 1
  {
    assert [a, b][..1] == [a] && [a][..0] == [];
  }

  /** A pinned lock has a valid owner and admits exactly that sink, besides system calls. */
  lemma PinnedAdmitsOnlyItsOwner(events: seq<Event>, who: Option<Sink>, now: int)
    requires Play(events).mode == Pinned
    ensures var s := Play(events);
            0 <= s.owner < |s.sinks| &&
            (Admits(s, who, now) <==> who.None? || IndexOf(s.sinks, who.value) == s.owner) &&
            (Admits(s, who, now) && who.Some? ==> who.value == s.sinks[s.owner])
  {
    PlayIsSound(events);
  }

  // ---- Who is who: names and pins ----

  /** Every sink that asked to be attached, with the name it gave. */
  function Applicants(events: seq<Event>): (r: seq<(Sink, string)>) {
    if |events| == 0 then []
    else
      var e := events[|events| - 1];
      Applicants(events[..|events| - 1]) + (if e.AttachEv? then [(e.sink, e.name)] else [])
  }

  /** The first eight applicants are the sinks, in order, under the first fifteen characters of their names. */
  lemma {:induction false} FirstEightAreAttached(events: seq<Event>, k: nat)
    ensures |Play(events).sinks| == |Play(events).ids| == Min(8, |Applicants(events)|)
    ensures k < |Play(events).sinks| ==>
              var (who, name) := Applicants(events)[k];
              Play(events).sinks[k] == who && Play(events).ids[k] == name[..Min(15, |name|)]
  {
    if |events| > 0 {
      FirstEightAreAttached(events[..|events| - 1], k);
    }
  }

  /** The name that pins the lock: the last one given that was attached then, unless AUTO was asked for since. */
  function PinnedName(events: seq<Event>): (r: Option<string>) {
    if |events| == 0 then None
    else
      var init, e := events[..|events| - 1], events[|events| - 1];
      if !e.MasterEv? then PinnedName(init)
      else if e.master == None || e.master.value == "" || e.master.value == "auto" then None
      else if e.master.value in Play(init).ids then e.master
      else PinnedName(init)
  }

  /** A pinned lock belongs to the first sink attached under the name that was given; AUTO unpins. */
  lemma {:induction false} PinnedOwnerHasTheName(events: seq<Event>)
    ensures var s := Play(events);
            && (s.mode == Pinned <==> PinnedName(events).Some?)
            && (s.mode == Pinned ==>
                0 <= s.owner < |s.ids| && s.ids[s.owner] == PinnedName(events).value &&
                PinnedName(events).value !in s.ids[..s.owner])
  {
    if |events| > 0 {
      var init, e := events[..|events| - 1], events[|events| - 1];
      PinnedOwnerHasTheName(init);
      PlayIsSound(init);
      var s, t := Play(init), Play(events);
      if s.mode == Pinned && t.mode == Pinned && s.owner == t.owner {
        assert t.ids[..s.owner] == s.ids[..s.owner];
      }
    }
  }

  /** AUTO frees the lock: whoever is attached is admitted at once. */
  lemma AutoFreesTheLock(s: Lock, id: Option<string>, who: Sink, now: int)
    requires id == None || id.value == "" || id.value == "auto"
    ensures var t := SetMaster(s, id);
            && t == s.(mode := Auto, owner := -1)
            && (Admits(t, Some(who), now) <==> who in s.sinks)
  {
  }

  // ---- Counting the rejects ----

  function Sum(s: seq<nat>): (n: nat) {
    if |s| == 0 then 0 else s[0] + Sum(s[1..])
  }

  lemma {:induction false} SumBump(s: seq<nat>, i: nat)
    requires i < |s|
    ensures Sum(s[i := s[i] + 1]) == Sum(s) + 1
  {
    if i > 0 {
      assert s[i := s[i] + 1][1..] == s[1..][i - 1 := s[1..][i - 1] + 1];
      SumBump(s[1..], i - 1);
    } else {
      assert s[0 := s[0] + 1][1..] == s[1..];
    }
  }

  predicate Refused(s: Lock, e: Event) {
    e.CheckEv? && !Admits(s, e.who, e.now)
  }

  predicate ByStranger(s: Lock, e: Event) {
    e.CheckEv? && e.who.Some? && IndexOf(s.sinks, e.who.value) < 0
  }

  /** Checks refused in the run, or only those of senders that were not attached. */
  function Refusals(events: seq<Event>, strangersOnly: bool): (n: nat) {
    if |events| == 0 then 0
    else
      var n := |events| - 1;
      var s, e := Play(events[..n]), events[n];
      Refusals(events[..n], strangersOnly) +
      (if Refused(s, e) && (strangersOnly ==> ByStranger(s, e)) then 1 else 0)
  }

  lemma StepCounts(s: Lock, e: Event)
    requires Sound(s)
    ensures After(s, e).rejectedTotal == s.rejectedTotal + (if Refused(s, e) then 1 else 0)
    ensures Sum(After(s, e).rejected) == Sum(s.rejected) + (if Refused(s, e) && !ByStranger(s, e) then 1 else 0)
  {
    if Refused(s, e) && !ByStranger(s, e) {
      SumBump(s.rejected, IndexOf(s.sinks, e.who.value));
    }
  }

  /** The total counts every refused check, and exceeds the per-sink counters by those of strangers. */
  lemma {:induction false} RejectsAreConserved(events: seq<Event>)
    ensures Play(events).rejectedTotal == Refusals(events, false)
    ensures Play(events).rejectedTotal == Sum(Play(events).rejected) + Refusals(events, true)
  {
    if |events| == 0 {
      SumOfZeros(MAX_SINKS);
      assert IDLE.rejected == seq(MAX_SINKS, _ => 0);
    } else {
      var n := |events| - 1;
      RejectsAreConserved(events[..n]);
      PlayIsSound(events[..n]);
      StepCounts(Play(events[..n]), events[n]);
    }
  }

  lemma {:induction false} SumOfZeros(n: nat)
    ensures Sum(seq(n, _ => 0)) == 0
  {
    if n > 0 {
      assert seq(n, _ => 0)[1..] == seq(n - 1, _ => 0);
      SumOfZeros(n - 1);
    }
  }
}
