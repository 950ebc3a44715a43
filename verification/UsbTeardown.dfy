/**
 The teardown handshake between CherryUSB's hub thread, the stick task and the callers that
 transmit or set line coding, as a state machine over atomic steps.

 A handle is one enumerated serial instance; handles are never reused.  Two things are assumed of the
 host stack: opening a device whose removal has begun fails, and a port reads as disconnected only once
 the removal of an instance on it has begun.
 */
module UsbTeardown {
  import opened Bytes

  type Handle = nat
  type Name = nat
  type Place = nat  // a hub and one of its ports

  /** Hub thread: idle, between claim and signal, or somewhere in the removal of a handle. */
  datatype HubPc =
    | HubIdle
    | HubSignal                        // claimed, connect semaphore not yet given
    | StopEntry(h: Handle)             // usbh_serial_stop: the claimed test
    | StopMatch(h: Handle)             // is it our instance?
    | StopClear(h: Handle)             // take tx_mtx, null S.ser
    | StopWait(h: Handle)              // poll rx_idle
    | Free(h: Handle, clean: bool)     // stop returned; `clean` unless it gave up waiting
    | Gone(h: Handle)                  // the disconnect event

  datatype StickPc =
    | Parked | MarkBusy | Open | Retry
    | GiveUpIdle | GiveUpRelease
    | Publish | Apply | InApply
    | FailClear | FailClose | FailIdle | FailRelease
    | Reading | DownClear | DownClose | DownIdle | DownRelease

  /** tx_mtx: free, held by a transmit or line-coding caller (with the handle it read), or by the stick task. */
  datatype Mutex = Unlocked | ByCaller(using: Option<Handle>) | ByStick(using: Option<Handle>)

  datatype State = State(
    hub: HubPc, stick: StickPc, mutex: Mutex,
    claimed: bool, wantClose: bool, rxIdle: bool, signal: bool,
    devname: Name, place: Place, ser: Option<Handle>, local: Option<Handle>,
    world: World, count: Counters)

  /** Every handle ever enumerated, those whose removal has begun, and those freed after a clean stop. */
  datatype World = World(
    names: map<Handle, Name>, places: map<Handle, Place>, removing: set<Handle>, freedClean: set<Handle>)

  datatype Counters = Counters(claims: nat, signals: nat, sessions: nat)

  predicate Init(s: State) {
    && s.hub == HubIdle && s.stick == Parked && s.mutex == Unlocked
    && !s.claimed && !s.wantClose && s.rxIdle && !s.signal
    && s.ser == None && s.local == None
    && s.world == World(map[], map[], {}, {}) && s.count == Counters(0, 0, 0)
  }

  // ---- Hub thread ----

  ghost predicate HubStep(s: State, t: State) {
    EventStep(s, t) || StopStep(s, t)
  }

  /** Enumeration and the two USB events. */
  ghost predicate EventStep(s: State, t: State) {
    match s.hub
    case HubIdle =>
      || (exists h: Handle, n: Name, p: Place :: Enumerate(s, t, h, n, p))
      || (exists h: Handle :: Start(s, t, h))
      || (exists h: Handle :: BeginRemoval(s, t, h))
    case HubSignal => t == s.(hub := HubIdle, signal := true, count := s.count.(signals := s.count.signals + 1))
    case Gone(h) =>
      // ours only if something is claimed and the port is the claimed one
      t == s.(hub := HubIdle, wantClose := s.wantClose || (s.claimed && At(s.world, h, s.place)))
    case _ => false
  }

  predicate At(w: World, h: Handle, p: Place) {
    h in w.places && w.places[h] == p
  }

  /** usbh_serial_stop, then the free. */
  ghost predicate StopStep(s: State, t: State) {
    match s.hub
    case StopEntry(h) => t == s.(hub := if s.claimed then StopMatch(h) else Free(h, true))
    case StopMatch(h) =>
      t == if s.ser == Some(h) || (h in s.world.names && s.world.names[h] == s.devname)
           then s.(hub := StopClear(h), wantClose := true)
           else s.(hub := Free(h, true))
    case StopClear(h) => s.mutex.Unlocked? && t == s.(hub := StopWait(h), ser := None)
    case StopWait(h) =>
      // polls until the stick task is idle, or gives up after 500 rounds
      t == s.(hub := Free(h, s.rxIdle))
    case Free(h, clean) =>
      t == s.(hub := Gone(h),
              world := if clean then s.world.(freedClean := s.world.freedClean + {h}) else s.world)
    case _ => false
  }

  /** A new instance; names are unique among the instances that are still there. */
  ghost predicate Enumerate(s: State, t: State, h: Handle, n: Name, p: Place) {
    && h !in s.world.names
    && (forall g :: g in s.world.names && g !in s.world.removing ==> s.world.names[g] != n)
    && t == s.(world := s.world.(names := s.world.names[h := n], places := s.world.places[h := p]))
  }

  /** INTERFACE_START: the first serial device wins. */
  predicate Start(s: State, t: State, h: Handle) {
    && h in s.world.names && h in s.world.places && h !in s.world.removing
    && t == if s.claimed then s
            else s.(hub := HubSignal, devname := s.world.names[h], place := s.world.places[h],
                    wantClose := false, claimed := true,
                    count := s.count.(claims := s.count.claims + 1))
  }

  predicate BeginRemoval(s: State, t: State, h: Handle) {
    && h in s.world.names && h !in s.world.removing
    && t == s.(hub := StopEntry(h), world := s.world.(removing := s.world.removing + {h}))
  }

  // ---- Stick task ----

  /** usbh_serial_open by name: fails, or yields an instance of that name whose removal has not begun. */
  predicate Opened(s: State, r: Option<Handle>) {
    r.Some? ==> r.value in s.world.names && s.world.names[r.value] == s.devname && r.value !in s.world.removing
  }

  ghost predicate StickStep(s: State, t: State) {
    OpeningStep(s, t) || SessionStep(s, t) || ClosingStep(s, t)
  }

  ghost predicate OpeningStep(s: State, t: State) {
    match s.stick
    case Parked =>
      s.signal && t == s.(stick := MarkBusy, signal := false, count := s.count.(sessions := s.count.sessions + 1))
    case MarkBusy => t == s.(stick := Open, rxIdle := false)
    case Open =>
      && Opened(s, t.local)
      && t == s.(local := t.local, stick := if t.local.Some? then Publish else Retry)
    case Retry => t == s.(stick := if s.wantClose then GiveUpIdle else Open)
    case _ => false
  }

  ghost predicate SessionStep(s: State, t: State) {
    match s.stick
    case Publish => s.mutex.Unlocked? && t == s.(stick := Apply, ser := s.local)
    case Apply => s.mutex.Unlocked? && t == s.(stick := InApply, mutex := ByStick(s.ser))
    case InApply => // the line coding was taken, or not
      t == s.(stick := t.stick, mutex := Unlocked) && (t.stick == Reading || t.stick == FailClear)
    case Reading => // leaves when asked to close or when the instance is dead, else reads on
      ((s.wantClose || Dead(s)) && t == s.(stick := DownClear)) || (!s.wantClose && t == s)
    case _ => false
  }

  /** The port of the open instance is disconnected: it is being removed, or another instance on it is. */
  predicate Dead(s: State) {
    s.local.Some? &&
      (s.local.value in s.world.removing ||
       (HubHandle(s.hub).Some? && HubHandle(s.hub).value in s.world.places &&
        At(s.world, s.local.value, s.world.places[HubHandle(s.hub).value])))
  }

  /** The three ways out: open never succeeded, line coding refused, device gone. */
  ghost predicate ClosingStep(s: State, t: State) {
    match s.stick
    case FailClear => s.mutex.Unlocked? && t == s.(stick := FailClose, ser := None)
    case DownClear => s.mutex.Unlocked? && t == s.(stick := DownClose, ser := None)
    case FailClose => t == s.(stick := FailIdle, local := None)
    case DownClose => t == s.(stick := DownIdle, local := None)
    case GiveUpIdle => t == s.(stick := GiveUpRelease, rxIdle := true)
    case FailIdle => t == s.(stick := FailRelease, rxIdle := true)
    case DownIdle => t == s.(stick := DownRelease, rxIdle := true)
    case GiveUpRelease => t == s.(stick := Parked, claimed := false)
    case FailRelease => t == s.(stick := Parked, claimed := false)
    case DownRelease => t == s.(stick := Parked, claimed := false)
    case _ => false
  }

  // ---- Transmit and line-coding callers ----

  predicate CallerStep(s: State, t: State) {
    || (s.mutex.Unlocked? && t == s.(mutex := ByCaller(s.ser)))
    || (s.mutex.ByCaller? && t == s.(mutex := Unlocked))
  }

  ghost predicate Next(s: State, t: State) {
    HubStep(s, t) || StickStep(s, t) || CallerStep(s, t)
  }

  ghost predicate Run(states: seq<State>) {
    && |states| > 0 && Init(states[0])
    && forall i :: 0 <= i < |states| - 1 ==> StepAt(states, i)
  }

  ghost predicate StepAt(states: seq<State>, i: nat)
    requires i + 1 < |states|
  {
    Next(states[i], states[i + 1])
  }

  // ---- Safety ----

  /** Somebody could touch the instance: the stick task, a caller inside tx_mtx, or the next caller. */
  predicate InUse(s: State, h: Handle) {
    || s.local == Some(h)
    || s.ser == Some(h)
    || (!s.mutex.Unlocked? && s.mutex.using == Some(h))
  }

  predicate Holding(pc: StickPc) {
    pc == Publish || pc == Apply || pc == InApply || pc == FailClear || pc == FailClose ||
    pc == Reading || pc == DownClear || pc == DownClose
  }

  predicate MayPublish(pc: StickPc) {
    pc == Apply || pc == InApply || pc == FailClear || pc == Reading || pc == DownClear
  }

  predicate IdlePc(pc: StickPc) {
    pc == Parked || pc == MarkBusy || pc == GiveUpRelease || pc == FailRelease || pc == DownRelease
  }

  /** The hub thread has decided that the stick task does not hold h. */
  predicate Cleared(s: State, h: Handle) {
    h in s.world.freedClean || s.hub == Free(h, true)
  }

  /** The stick task's flags and pointers follow its program counter. */
  ghost predicate StickInv(s: State) {
    && (s.rxIdle <==> IdlePc(s.stick))
    && (s.local.Some? <==> Holding(s.stick))
    && (s.ser.Some? ==> s.ser == s.local && MayPublish(s.stick))
    && (!s.mutex.Unlocked? ==> s.mutex.using == s.ser)
    && (s.mutex.ByStick? <==> s.stick == InApply)
  }

  /** One claim, one signal, one session. */
  ghost predicate ClaimInv(s: State) {
    && (s.claimed <==> s.hub == HubSignal || s.signal || s.stick != Parked)
    && (s.hub == HubSignal ==> !s.signal && s.stick == Parked)
    && (s.signal ==> s.stick == Parked)
    && s.count.claims == s.count.signals + (if s.hub == HubSignal then 1 else 0)
    && s.count.signals == s.count.sessions + (if s.signal then 1 else 0)
    && (s.hub == HubSignal ==> !s.wantClose)
  }

  function HubHandle(pc: HubPc): (h: Option<Handle>) {
    match pc
    case HubIdle => None
    case HubSignal => None
    case StopEntry(h) => Some(h)
    case StopMatch(h) => Some(h)
    case StopClear(h) => Some(h)
    case StopWait(h) => Some(h)
    case Free(h, _) => Some(h)
    case Gone(h) => Some(h)
  }

  /** What the stick task holds is the claimed device, and never one that was found clear of it. */
  ghost predicate HandleInv(s: State) {
    && (s.local.Some? ==> s.local.value in s.world.names && s.world.names[s.local.value] == s.devname)
    && (HubHandle(s.hub).Some? ==> HubHandle(s.hub).value in s.world.removing)
    && s.world.places.Keys == s.world.names.Keys
    && s.world.removing <= s.world.names.Keys && s.world.freedClean <= s.world.removing
    && (forall h: Handle :: Cleared(s, h) ==> s.local != Some(h))
  }

  /** From the match to the end of the wait the stick task has been asked to close. */
  predicate StopInv(s: State) {
    s.hub.StopClear? || s.hub.StopWait? ==> s.wantClose
  }

  ghost predicate Inv(s: State) {
    StickInv(s) && ClaimInv(s) && HandleInv(s) && StopInv(s)
  }

  lemma EventKeepsInv(s: State, t: State)
    requires Inv(s) && EventStep(s, t)
    ensures Inv(t)
  {
    if h: Handle, n: Name, p: Place :| s.hub == HubIdle && Enumerate(s, t, h, n, p) {
      EnumerateKeepsInv(s, t, h, n, p);
    } else if h: Handle :| s.hub == HubIdle && (Start(s, t, h) || BeginRemoval(s, t, h)) {
      ClaimKeepsInv(s, t, h);
    } else {
      forall h: Handle | Cleared(t, h) ensures t.local != Some(h) {
        assert Cleared(s, h);
      }
    }
  }

  lemma EnumerateKeepsInv(s: State, t: State, h: Handle, n: Name, p: Place)
    requires Inv(s) && s.hub == HubIdle && Enumerate(s, t, h, n, p)
    ensures Inv(t)
  {
    forall g: Handle | Cleared(t, g) ensures t.local != Some(g) {
      assert Cleared(s, g);
    }
  }

  lemma ClaimKeepsInv(s: State, t: State, h: Handle)
    requires Inv(s) && s.hub == HubIdle && (Start(s, t, h) || BeginRemoval(s, t, h))
    ensures Inv(t)
  {
    forall g: Handle | Cleared(t, g) ensures t.local != Some(g) {
      assert Cleared(s, g);
    }
  }

  lemma StopKeepsInv(s: State, t: State)
    requires Inv(s) && StopStep(s, t)
    ensures Inv(t)
  {
    assert t.stick == s.stick && t.rxIdle == s.rxIdle && t.local == s.local && t.mutex == s.mutex;
    forall h: Handle | Cleared(t, h) ensures t.local != Some(h) {
      if !Cleared(s, h) {
        // just found clear: not claimed, not ours, or idle
        assert s.hub == StopEntry(h) || s.hub == StopMatch(h) || s.hub == StopWait(h);
      }
    }
  }

  lemma OpeningKeepsInv(s: State, t: State)
    requires Inv(s) && OpeningStep(s, t)
    ensures Inv(t)
  {
    assert t.hub == s.hub && t.world == s.world && t.devname == s.devname && t.mutex == s.mutex && t.ser == s.ser;
    forall h: Handle | Cleared(t, h) ensures t.local != Some(h) {
      assert Cleared(s, h) && h in s.world.removing;
    }
  }

  lemma SessionKeepsInv(s: State, t: State)
    requires Inv(s) && SessionStep(s, t)
    ensures Inv(t)
  {
    assert t.hub == s.hub && t.world == s.world && t.devname == s.devname && t.local == s.local;
    forall h: Handle | Cleared(t, h) ensures t.local != Some(h) {
      assert Cleared(s, h);
    }
  }

  lemma ClosingKeepsInv(s: State, t: State)
    requires Inv(s) && ClosingStep(s, t)
    ensures Inv(t)
  {
    assert t.hub == s.hub && t.world == s.world && t.devname == s.devname;
    forall h: Handle | Cleared(t, h) ensures t.local != Some(h) {
      assert Cleared(s, h);
    }
  }

  lemma CallerKeepsInv(s: State, t: State)
    requires Inv(s) && CallerStep(s, t)
    ensures Inv(t)
  {
    forall h: Handle | Cleared(t, h) ensures t.local != Some(h) {
      assert Cleared(s, h);
    }
  }

  lemma NextKeepsInv(s: State, t: State)
    requires Inv(s) && Next(s, t)
    ensures Inv(t)
  {
    if EventStep(s, t) {
      EventKeepsInv(s, t);
    } else if StopStep(s, t) {
      StopKeepsInv(s, t);
    } else if OpeningStep(s, t) {
      OpeningKeepsInv(s, t);
    } else if SessionStep(s, t) {
      SessionKeepsInv(s, t);
    } else if ClosingStep(s, t) {
      ClosingKeepsInv(s, t);
    } else {
      CallerKeepsInv(s, t);
    }
  }

  lemma {:induction false} RunInv(states: seq<State>, i: nat)
    requires Run(states) && i < |states|
    ensures Inv(states[i])
  {
    if i > 0 {
      RunInv(states, i - 1);
      assert StepAt(states, i - 1);
      NextKeepsInv(states[i - 1], states[i]);
    }
  }

  lemma RunKeepsInv(states: seq<State>)
    requires Run(states)
    ensures forall i :: 0 <= i < |states| ==> Inv(states[i])
  {
    forall i | 0 <= i < |states| ensures Inv(states[i]) {
      RunInv(states, i);
    }
  }

  /**
   In every interleaving: an idle stick task means nobody can reach any handle, a handle whose removal
   was not abandoned by timeout is out of everybody's reach when it is freed and ever after, and each
   claim is worth exactly one connect signal and one session.
   */
  lemma TeardownIsSafe(states: seq<State>, i: nat)
    requires Run(states) && i < |states|
    ensures var s := states[i];
            && (s.rxIdle ==> forall h :: !InUse(s, h))
            && (forall h :: h in s.world.freedClean || s.hub == Free(h, true) ==> !InUse(s, h))
            && s.count.claims == s.count.signals + (if s.hub == HubSignal then 1 else 0)
            && s.count.signals == s.count.sessions + (if s.signal then 1 else 0)
            && (s.claimed <==> s.hub == HubSignal || s.signal || s.stick != Parked)
  {
    RunKeepsInv(states);
  }

  // ---- Who asks a session to close ----

  /** A claim, seen from outside: the hub thread goes from idle to giving the connect signal. */
  predicate Claims(s: State, t: State) {
    s.hub == HubIdle && t.hub == HubSignal
  }

  /** The stop routine looked at an instance of the claimed name, or a disconnect event came for the claimed port. */
  predicate Asks(s: State, t: State) {
    || (s.hub.StopMatch? && t.hub != s.hub && s.hub.h in s.world.names && s.world.names[s.hub.h] == s.devname)
    || (s.hub.Gone? && t.hub == HubIdle && s.claimed &&
        s.hub.h in s.world.places && s.world.places[s.hub.h] == s.place)
  }

  /** Somebody asked before state `j`, and nothing was claimed since. */
  ghost predicate AskedSinceClaim(states: seq<State>, j: nat)
    requires j < |states|
  {
    exists i :: 0 <= i < j && AskedAt(states, i) && forall k :: i < k < j ==> !ClaimedAt(states, k)
  }

  predicate AskedAt(states: seq<State>, k: nat)
    requires k + 1 < |states|
  {
    Asks(states[k], states[k + 1])
  }

  predicate ClaimedAt(states: seq<State>, k: nat)
    requires k + 1 < |states|
  {
    Claims(states[k], states[k + 1])
  }

  lemma AskedOneStepOn(states: seq<State>, j: nat)
    requires 0 < j < |states|
    ensures AskedSinceClaim(states, j) <==>
            AskedAt(states, j - 1) || (AskedSinceClaim(states, j - 1) && !ClaimedAt(states, j - 1))
  {
    if AskedSinceClaim(states, j - 1) && !ClaimedAt(states, j - 1) {
      var i :| 0 <= i < j - 1 && AskedAt(states, i) && forall k :: i < k < j - 1 ==> !ClaimedAt(states, k);
      assert forall k :: i < k < j ==> !ClaimedAt(states, k);
    }
  }

  lemma StepMovesWantClose(s: State, t: State)
    requires Inv(s) && Next(s, t)
    ensures t.wantClose <==> Asks(s, t) || (s.wantClose && !Claims(s, t))
  {
    if EventStep(s, t) {
      EventMovesWantClose(s, t);
    } else if StopStep(s, t) {
      StopMovesWantClose(s, t);
    } else {
      assert t.hub == s.hub && t.wantClose == s.wantClose;
    }
  }

  lemma StopMovesWantClose(s: State, t: State)
    requires Inv(s) && StopStep(s, t)
    ensures t.wantClose <==> Asks(s, t) || (s.wantClose && !Claims(s, t))
  {
  }

  lemma EventMovesWantClose(s: State, t: State)
    requires Inv(s) && EventStep(s, t)
    ensures t.wantClose <==> Asks(s, t) || (s.wantClose && !Claims(s, t))
  {
  }

  /** In every run: a session is to close exactly when somebody asked since the last claim. */
  lemma {:induction false} ToCloseExactlyWhenAsked(states: seq<State>, j: nat)
    requires Run(states) && j < |states|
    ensures states[j].wantClose <==> AskedSinceClaim(states, j)
  {
    if j > 0 {
      ToCloseExactlyWhenAsked(states, j - 1);
      RunInv(states, j - 1);
      assert StepAt(states, j - 1);
      StepMovesWantClose(states[j - 1], states[j]);
      AskedOneStepOn(states, j);
    }
  }

  /**
   Hence a session that nobody asked to close reads on, and leaves only if the instance it opened is
   dead; a failing open is tried again; and a session that was asked does neither.
   */
  lemma UnaskedSessionGoesOn(states: seq<State>, j: nat, s: State, t: State)
    requires Run(states) && j < |states| && s == states[j]
    ensures s.stick == Reading && !AskedSinceClaim(states, j) ==>
              (StickStep(s, t) == (t == s || (PortIsGone(s, HubHandle(s.hub)) && t == s.(stick := DownClear))))
    ensures s.stick == Reading && AskedSinceClaim(states, j) ==> (StickStep(s, t) == (t == s.(stick := DownClear)))
    ensures s.stick == Retry && !AskedSinceClaim(states, j) ==> (StickStep(s, t) == (t == s.(stick := Open)))
    ensures s.stick == Retry && AskedSinceClaim(states, j) ==> (StickStep(s, t) == (t == s.(stick := GiveUpIdle)))
  {
    ToCloseExactlyWhenAsked(states, j);
  }

  /** The open instance is being removed, or the one the hub thread is removing sits on the same port. */
  predicate PortIsGone(s: State, removed: Option<Handle>) {
    s.local.Some? &&
      (s.local.value in s.world.removing ||
       (removed.Some? && removed.value in s.world.places && s.local.value in s.world.places &&
        s.world.places[s.local.value] == s.world.places[removed.value]))
  }

  /** The claimed device is still plugged in, or its removal has only just begun. */
  ghost predicate StillThere(s: State) {
    exists h: Handle :: IsThere(s, h)
  }

  predicate IsThere(s: State, h: Handle) {
    && h in s.world.names && s.world.names[h] == s.devname && At(s.world, h, s.place)
    && (h !in s.world.removing || s.hub == StopEntry(h) || s.hub == StopMatch(h))
  }

  ghost predicate DeviceKept(s: State) {
    s.claimed && !s.wantClose ==> StillThere(s)
  }

  /** No unplug is missed: as long as nobody asked, the claimed device is still there. */
  lemma NoUnplugIsMissed(states: seq<State>, j: nat)
    requires Run(states) && j < |states|
    ensures states[j].claimed && !AskedSinceClaim(states, j) ==> StillThere(states[j])
  {
    ToCloseExactlyWhenAsked(states, j);
    RunKeepsDevice(states, j);
  }

  lemma {:induction false} RunKeepsDevice(states: seq<State>, j: nat)
    requires Run(states) && j < |states|
    ensures DeviceKept(states[j])
  {
    if j > 0 {
      RunKeepsDevice(states, j - 1);
      RunInv(states, j - 1);
      assert StepAt(states, j - 1);
      StepKeepsDevice(states[j - 1], states[j]);
    }
  }

  lemma StepKeepsDevice(s: State, t: State)
    requires Inv(s) && Next(s, t) && DeviceKept(s)
    ensures DeviceKept(t)
  {
    if t.claimed && !t.wantClose {
      if !s.claimed || s.wantClose {
        assert EventStep(s, t);
        var h: Handle :| Start(s, t, h);
        assert IsThere(t, h);
      } else {
        var h: Handle :| IsThere(s, h);
        StepKeepsThere(s, t, h);
      }
    }
  }

  lemma StepKeepsThere(s: State, t: State, h: Handle)
    requires Inv(s) && Next(s, t) && s.claimed && IsThere(s, h) && t.claimed && !t.wantClose
    ensures IsThere(t, h)
  {
    if EventStep(s, t) {
      EventLeavesDevice(s, t, h);
    } else if StopStep(s, t) {
      assert t.devname == s.devname && t.place == s.place;
    } else {
      assert t.hub == s.hub && t.world == s.world && t.devname == s.devname && t.place == s.place;
    }
  }

  lemma EventLeavesDevice(s: State, t: State, h: Handle)
    requires EventStep(s, t) && s.claimed && IsThere(s, h)
    ensures IsThere(t, h)
  {
  }

  // ---- Progress: the wait is short unless the stick task is starved ----

  /** Steps the stick task still needs before it reports idle, once it has been asked to close. */
  function StepsToIdle(pc: StickPc): (n: nat) {
    match pc
    case Publish => 7 case Apply => 6 case InApply => 5
    case FailClear => 3 case FailClose => 2 case FailIdle => 1
    case Reading => 4 case DownClear => 3 case DownClose => 2 case DownIdle => 1
    case Open => 8 case Retry => 2 case GiveUpIdle => 1
    case _ => 0
  }

  /**
   While the hub thread waits for the claimed device, every step of the stick task brings it closer to
   idle (at most eight steps), and the steps of everybody else do not set it back.
   */
  lemma WaitEnds(s: State, t: State)
    requires Inv(s) && Next(s, t) && s.hub.StopWait? && t.hub.StopWait? && !s.rxIdle
    ensures StepsToIdle(t.stick) <= StepsToIdle(s.stick) <= 8
    ensures StickStep(s, t) ==> StepsToIdle(t.stick) < StepsToIdle(s.stick)
  {
  }

  /** How many of the steps from state `i` to state `j` are of one kind. */
  ghost function Steps(states: seq<State>, kind: (State, State) -> bool, i: nat, j: nat): (n: nat)
    requires i <= j < |states|
    decreases j
  {
    if i == j then 0
    else Steps(states, kind, i, j - 1) + (if kind(states[j - 1], states[j]) then 1 else 0)
  }

  /** Step `k` lowers the rank if it is of that kind, and does not raise it otherwise. */
  ghost predicate Sinks(states: seq<State>, kind: (State, State) -> bool, rank: State -> nat, k: nat)
    requires k + 1 < |states|
  {
    rank(states[k + 1]) + (if kind(states[k], states[k + 1]) then 1 else 0) <= rank(states[k])
  }

  lemma {:induction false} CountsDown(states: seq<State>, kind: (State, State) -> bool, rank: State -> nat,
                                      i: nat, j: nat)
    requires i <= j < |states| && forall k :: i <= k < j ==> Sinks(states, kind, rank, k)
    ensures rank(states[j]) + Steps(states, kind, i, j) <= rank(states[i])
    decreases j
  {
    if i < j {
      CountsDown(states, kind, rank, i, j - 1);
      assert Sinks(states, kind, rank, j - 1);
    }
  }

  /**
   Once the hub thread waits for an instance, eight steps of the stick task are enough for it to report
   idle, whatever the others do meanwhile: the wait fails only if the stick task is not scheduled.
   */
  lemma WaitIsShort(states: seq<State>, h: Handle, i: nat, j: nat)
    requires Run(states) && i <= j < |states|
    requires forall k :: i <= k <= j ==> states[k].hub == StopWait(h)
    requires Steps(states, StickStep, i, j) >= 8
    ensures exists k :: i <= k <= j && states[k].rxIdle
  {
    if forall k :: i <= k <= j ==> !states[k].rxIdle {
      var rank := (s: State) => StepsToIdle(s.stick);
      forall k | i <= k < j ensures Sinks(states, StickStep, rank, k) {
        RunInv(states, k);
        assert StepAt(states, k);
        WaitEnds(states[k], states[k + 1]);
      }
      CountsDown(states, StickStep, rank, i, j);
      RunInv(states, j);
    }
  }

  /** Steps the hub thread still needs for what it has begun. */
  function HubStepsLeft(pc: HubPc): (n: nat) {
    match pc
    case HubIdle => 0
    case HubSignal => 1
    case StopEntry(_) => 6
    case StopMatch(_) => 5
    case StopClear(_) => 4
    case StopWait(_) => 3
    case Free(_, _) => 2
    case Gone(_) => 1
  }

  /**
   Every step of the hub thread brings a removal closer to its end, which is at most six of them away; the
   instance is freed clean exactly when the stop routine let it pass or saw the stick task idle, and that
   is remembered.
   */
  lemma RemovalAdvances(s: State, t: State)
    requires Inv(s) && HubStep(s, t) && s.hub != HubIdle
    ensures HubStepsLeft(t.hub) < HubStepsLeft(s.hub) <= 6
    ensures t.hub == HubIdle || HubHandle(t.hub) == HubHandle(s.hub)
    ensures s.hub.StopWait? ==> t.hub == Free(s.hub.h, s.rxIdle)
    ensures s.hub.Free? ==>
              t.world.freedClean == if s.hub.clean then s.world.freedClean + {s.hub.h} else s.world.freedClean
    ensures !s.hub.Free? ==> t.world.freedClean == s.world.freedClean
  {
    if StopStep(s, t) {
      StopAdvances(s, t);
    }
  }

  lemma StopAdvances(s: State, t: State)
    requires StopStep(s, t)
    ensures HubStepsLeft(t.hub) < HubStepsLeft(s.hub) <= 6 && HubHandle(t.hub) == HubHandle(s.hub)
    ensures s.hub.StopWait? ==> t.hub == Free(s.hub.h, s.rxIdle)
    ensures t.world.freedClean ==
            if s.hub.Free? && s.hub.clean then s.world.freedClean + {s.hub.h} else s.world.freedClean
  {
  }

  /** The hub thread is never stuck in a removal: it waits at most for the mutex, whose holder can give it back. */
  lemma RemovalIsNeverStuck(s: State) returns (t: State)
    requires Inv(s) && s.hub != HubIdle
    ensures HubStep(s, t) || (s.hub.StopClear? && !s.mutex.Unlocked? && t == s)
  {
    t := s;
    match s.hub
    case HubSignal => t := s.(hub := HubIdle, signal := true, count := s.count.(signals := s.count.signals + 1));
    case StopEntry(h) => t := s.(hub := if s.claimed then StopMatch(h) else Free(h, true));
    case StopMatch(h) =>
      var ours := s.ser == Some(h) || (h in s.world.names && s.world.names[h] == s.devname);
      t := if ours then s.(hub := StopClear(h), wantClose := true) else s.(hub := Free(h, true));
    case StopClear(h) => if s.mutex.Unlocked? { t := s.(hub := StopWait(h), ser := None); }
    case StopWait(h) => t := s.(hub := Free(h, s.rxIdle));
    case Free(h, clean) =>
      var world := if clean then s.world.(freedClean := s.world.freedClean + {h}) else s.world;
      t := s.(hub := Gone(h), world := world);
    case Gone(h) => t := s.(hub := HubIdle, wantClose := s.wantClose || (s.claimed && At(s.world, h, s.place)));
    case HubIdle => assert false;
  }

  /** Steps the stick task still needs before it releases a claim that it was asked to close. */
  function StepsToRelease(pc: StickPc): (n: nat)
    ensures 1 <= n <= 11
  {
    match pc
    case Parked => 11 case MarkBusy => 10
    case GiveUpRelease => 1 case FailRelease => 1 case DownRelease => 1
    case _ => StepsToIdle(pc) + 1
  }

  /** A claimed device, asked to close: the stick task comes closer to the release, nobody sets it back. */
  lemma ReleaseComesCloser(s: State, t: State)
    requires Inv(s) && Next(s, t) && s.claimed && s.wantClose && t.claimed
    ensures t.wantClose && StepsToRelease(t.stick) <= StepsToRelease(s.stick)
    ensures StickStep(s, t) ==> StepsToRelease(t.stick) < StepsToRelease(s.stick)
  {
    StepMovesWantClose(s, t);
    if OpeningStep(s, t) || SessionStep(s, t) || ClosingStep(s, t) {
      StickComesCloser(s, t);
    } else if EventStep(s, t) {
      EventFrame(s, t);
    } else if StopStep(s, t) {
      StopFrame(s, t);
    }
  }

  lemma StickComesCloser(s: State, t: State)
    requires Inv(s) && StickStep(s, t) && s.claimed && s.wantClose && t.claimed
    ensures t.wantClose && StepsToRelease(t.stick) < StepsToRelease(s.stick)
  {
  }

  /** Once asked to close, a claim does not outlast eleven steps of the stick task. */
  lemma AskedClaimIsReleased(states: seq<State>, i: nat, j: nat)
    requires Run(states) && i <= j < |states|
    requires AskedSinceClaim(states, i) && Steps(states, StickStep, i, j) >= 11
    ensures exists k :: i <= k <= j && !states[k].claimed
  {
    if forall k :: i <= k <= j ==> states[k].claimed {
      ToCloseExactlyWhenAsked(states, i);
      var rank := (s: State) => StepsToRelease(s.stick);
      forall k | i <= k < j ensures Sinks(states, StickStep, rank, k) {
        StaysAsked(states, i, k);
        RunInv(states, k);
        assert StepAt(states, k);
        ReleaseComesCloser(states[k], states[k + 1]);
      }
      CountsDown(states, StickStep, rank, i, j);
    }
  }

  lemma {:induction false} StaysAsked(states: seq<State>, i: nat, j: nat)
    requires Run(states) && i <= j < |states| && states[i].wantClose
    requires forall k :: i <= k <= j ==> states[k].claimed
    ensures states[j].wantClose
    decreases j
  {
    if i < j {
      StaysAsked(states, i, j - 1);
      StaysAskedOnce(states, j - 1);
    }
  }

  lemma StaysAskedOnce(states: seq<State>, k: nat)
    requires Run(states) && k + 1 < |states|
    requires states[k].claimed && states[k].wantClose && states[k + 1].claimed
    ensures states[k + 1].wantClose
  {
    RunInv(states, k);
    assert StepAt(states, k);
    ReleaseComesCloser(states[k], states[k + 1]);
  }

  /** The stick task is never stuck: it waits for a connect signal or for a mutex that its holder can give back. */
  lemma StickIsNeverStuck(s: State) returns (t: State)
    requires Inv(s)
    ensures s.stick == Parked && !s.signal ==> !s.claimed || s.hub == HubSignal
    ensures (s.stick == Parked && !s.signal) || StickStep(s, t) || (s.mutex.ByCaller? && CallerStep(s, t))
  {
    t := s.(mutex := Unlocked);
    if !s.mutex.ByCaller? {
      match s.stick
      case Parked => t := s.(stick := MarkBusy, signal := false, count := s.count.(sessions := s.count.sessions + 1));
      case MarkBusy => t := s.(stick := Open, rxIdle := false);
      case Open => t := s.(stick := Retry, local := None);
      case Retry => t := s.(stick := if s.wantClose then GiveUpIdle else Open);
      case Publish => t := s.(stick := Apply, ser := s.local);
      case Apply => t := s.(stick := InApply, mutex := ByStick(s.ser));
      case InApply => t := s.(stick := Reading, mutex := Unlocked);
      case Reading => t := if s.wantClose then s.(stick := DownClear) else s;
      case FailClear => t := s.(stick := FailClose, ser := None);
      case DownClear => t := s.(stick := DownClose, ser := None);
      case FailClose => t := s.(stick := FailIdle, local := None);
      case DownClose => t := s.(stick := DownIdle, local := None);
      case GiveUpIdle => t := s.(stick := GiveUpRelease, rxIdle := true);
      case FailIdle => t := s.(stick := FailRelease, rxIdle := true);
      case DownIdle => t := s.(stick := DownRelease, rxIdle := true);
      case _ => t := s.(stick := Parked, claimed := false);
    }
  }

  // ---- What the handshake does not give ----

  /** From here on no caller can enter with `h`: it is not published and will not be. */
  predicate OutOfReach(s: State, h: Handle) {
    && h in s.world.removing && s.ser != Some(h)
    && (s.mutex.Unlocked? || s.mutex.using != Some(h))
    && !AboutToPublish(s, h)
  }

  /** The stick task has opened `h` and not yet published it. */
  predicate AboutToPublish(s: State, h: Handle) {
    s.stick == Publish && s.local == Some(h)
  }

  lemma StaysOutOfReach(s: State, t: State, h: Handle)
    requires Inv(s) && Next(s, t) && OutOfReach(s, h)
    ensures OutOfReach(t, h)
  {
    if EventStep(s, t) {
      EventFrame(s, t);
    } else if StopStep(s, t) {
      StopFrame(s, t);
    } else if OpeningStep(s, t) {
      OpeningLeavesOutOfReach(s, t, h);
    } else if SessionStep(s, t) {
      SessionLeavesOutOfReach(s, t, h);
    } else if ClosingStep(s, t) {
      ClosingLeavesOutOfReach(s, t, h);
    }
  }

  /** USB events leave the stick task, the handles and the mutex alone. */
  lemma EventFrame(s: State, t: State)
    requires EventStep(s, t)
    ensures t.stick == s.stick && t.local == s.local && t.mutex == s.mutex && t.ser == s.ser
    ensures s.world.removing <= t.world.removing
  {
  }

  /** So does the stop routine, but for clearing S.ser. */
  lemma StopFrame(s: State, t: State)
    requires StopStep(s, t)
    ensures t.stick == s.stick && t.local == s.local && t.mutex == s.mutex && (t.ser == s.ser || t.ser == None)
    ensures s.world.removing <= t.world.removing
  {
  }

  lemma OpeningLeavesOutOfReach(s: State, t: State, h: Handle)
    requires OpeningStep(s, t) && OutOfReach(s, h)
    ensures OutOfReach(t, h)
  {
    assert t.world == s.world && t.ser == s.ser && t.mutex == s.mutex;
  }

  lemma SessionLeavesOutOfReach(s: State, t: State, h: Handle)
    requires SessionStep(s, t) && OutOfReach(s, h)
    ensures OutOfReach(t, h)
  {
    assert t.world == s.world && t.local == s.local;
  }

  lemma ClosingLeavesOutOfReach(s: State, t: State, h: Handle)
    requires ClosingStep(s, t) && OutOfReach(s, h)
    ensures OutOfReach(t, h)
  {
    assert t.world == s.world && t.mutex == s.mutex && t.stick != Publish;
  }

  ghost predicate Path(states: seq<State>) {
    |states| > 0 && forall i :: 0 <= i < |states| - 1 ==> StepAt(states, i)
  }

  lemma {:induction false} PathStaysOutOfReach(path: seq<State>, h: Handle, k: nat)
    requires Path(path) && Inv(path[0]) && OutOfReach(path[0], h) && k < |path|
    ensures Inv(path[k]) && OutOfReach(path[k], h)
  {
    if k > 0 {
      PathStaysOutOfReach(path, h, k - 1);
      assert StepAt(path, k - 1);
      NextKeepsInv(path[k - 1], path[k]);
      StaysOutOfReach(path[k - 1], path[k], h);
    }
  }

  /** Some continuation of `s` lets a caller into the instance. */
  ghost predicate CanBeEntered(s: State, h: Handle) {
    exists path: seq<State> :: Path(path) && path[0] == s && path[|path| - 1].mutex == ByCaller(Some(h))
  }

  /**
   Whether a caller can still enter after stop has cleared S.ser depends on one thing: whether the stick
   task stood between opening the instance and publishing it at that moment.
   */
  lemma EntryAfterClearExactly(states: seq<State>, i: nat, h: Handle)
    requires Run(states) && i + 1 < |states|
    requires states[i].hub == StopClear(h) && states[i + 1].hub == StopWait(h)
    ensures CanBeEntered(states[i + 1], h) <==> AboutToPublish(states[i], h)
  {
    RunInv(states, i);
    assert StepAt(states, i);
    var s, t := states[i], states[i + 1];
    NextKeepsInv(s, t);
    assert t == s.(hub := StopWait(h), ser := None) && s.mutex.Unlocked?;
    if AboutToPublish(s, h) {
      StillEntered(t, h);
    } else {
      assert OutOfReach(t, h);
      NeverEntered(t, h);
    }
  }

  lemma StillEntered(t: State, h: Handle)
    requires t.mutex.Unlocked? && AboutToPublish(t, h)
    ensures CanBeEntered(t, h)
  {
    var u := t.(stick := Apply, ser := t.local);
    var v := u.(mutex := ByCaller(Some(h)));
    assert SessionStep(t, u) && CallerStep(u, v);
    var path := [t, u, v];
    assert StepAt(path, 0) && StepAt(path, 1);
    assert Path(path) && path[|path| - 1].mutex == ByCaller(Some(h));
  }

  lemma NeverEntered(t: State, h: Handle)
    requires Inv(t) && OutOfReach(t, h)
    ensures !CanBeEntered(t, h)
  {
    forall path: seq<State> | Path(path) && path[0] == t ensures path[|path| - 1].mutex != ByCaller(Some(h)) {
      PathStaysOutOfReach(path, h, |path| - 1);
    }
  }

  /** The states of one run in which the stick task is between opening and publishing when stop comes. */
  function LatePublish(): (states: seq<State>) {
    var s0 := State(HubIdle, Parked, Unlocked, false, false, true, false, 0, 0, None, None,
                    World(map[], map[], {}, {}), Counters(0, 0, 0));
    var s1 := s0.(world := World(map[0 := 0], map[0 := 0], {}, {}));
    var s2 := s1.(hub := HubSignal, claimed := true, count := Counters(1, 0, 0));
    var s3 := s2.(hub := HubIdle, signal := true, count := Counters(1, 1, 0));
    var s4 := s3.(stick := MarkBusy, signal := false, count := Counters(1, 1, 1));
    var s5 := s4.(stick := Open, rxIdle := false);
    var s6 := s5.(stick := Publish, local := Some(0));
    var s7 := s6.(hub := StopEntry(0), world := World(map[0 := 0], map[0 := 0], {0}, {}));
    var s8 := s7.(hub := StopMatch(0));
    var s9 := s8.(hub := StopClear(0), wantClose := true);
    var s10 := s9.(hub := StopWait(0));
    var s11 := s10.(stick := Apply, ser := Some(0));
    var s12 := s11.(mutex := ByCaller(Some(0)));
    [s0, s1, s2, s3, s4, s5, s6, s7, s8, s9, s10, s11, s12]
  }

  /**
   Nulling S.ser does not by itself keep callers out: the stick task may publish the handle again
   after stop has cleared it, and a caller may enter with it.  Only the wait for rx_idle protects it.
   */
  lemma CallersCanEnterAfterClear()
    ensures Run(LatePublish())
    ensures var s := LatePublish()[12]; s.hub == StopWait(0) && s.mutex == ByCaller(Some(0))
  {
    LateClaim();
    LateOpen();
    LateStop();
    var r := LatePublish();
    forall i | 0 <= i < |r| - 1 ensures StepAt(r, i) {
      assert Next(r[i], r[i + 1]);
    }
  }

  lemma LateClaim()
    ensures var r := LatePublish(); forall i :: 0 <= i < 3 ==> Next(r[i], r[i + 1])
  {
    var r := LatePublish();
    assert Enumerate(r[0], r[1], 0, 0, 0) && Start(r[1], r[2], 0) && EventStep(r[2], r[3]);
  }

  lemma LateOpen()
    ensures var r := LatePublish(); forall i :: 3 <= i < 7 ==> Next(r[i], r[i + 1])
  {
    var r := LatePublish();
    assert OpeningStep(r[3], r[4]) && OpeningStep(r[4], r[5]) && OpeningStep(r[5], r[6]);
    assert BeginRemoval(r[6], r[7], 0) by {
      assert r[6].world.removing + {0} == r[7].world.removing;
    }
  }

  lemma LateStop()
    ensures var r := LatePublish(); forall i :: 7 <= i < 12 ==> Next(r[i], r[i + 1])
  {
    var r := LatePublish();
    assert StopStep(r[7], r[8]) && StopStep(r[8], r[9]) && StopStep(r[9], r[10]);
    assert SessionStep(r[10], r[11]) && CallerStep(r[11], r[12]);
  }
}
