/**
 The TCP client slots: accepting, closing, dropping everybody, and the one client that controls the
 serial line.
 */
module ClientTable {

  const SLOTS := 4
  const NOBODY := -1

  datatype Slot = Slot(sock: int, active: bool, isController: bool, shut: bool)

  datatype State = State(
    slots: seq<Slot>, ctrl: int, active: int, accepts: nat, disconnects: nat,
    refused: nat,     // settled without a free slot
    pending: bool     // counted as accepted, slot not yet looked for
  )

  /**
   `Hangup` is a failed send: it shuts the socket and leaves the rest to the client's own task, as
   `Drop` (all clients, or the source gone) does. `Close` is that task's last act.
   */
  datatype Event = Begin | Settle(sock: int) | Acquire(c: nat) | Hangup(c: nat) | Close(c: nat) | Drop

  // ---- What each event does ----

  function FreeSlot(slots: seq<Slot>): (k: nat)
    ensures k <= |slots| && (forall i :: 0 <= i < k ==> slots[i].active)
    ensures k < |slots| ==> !slots[k].active
  {
    if |slots| == 0 || !slots[0].active then 0 else 1 + FreeSlot(slots[1..])
  }

  function ShutOne(s: Slot): (r: Slot) {
    if s.active && s.sock >= 0 then s.(shut := true) else s
  }

  function Dropped(slots: seq<Slot>): (r: seq<Slot>)
    ensures |r| == |slots|
    ensures forall i :: 0 <= i < |r| ==> r[i] == ShutOne(slots[i].(isController := false))
  {
    if |slots| == 0 then []
    else Dropped(slots[..|slots| - 1]) + [ShutOne(slots[|slots| - 1].(isController := false))]
  }

  /** A client's task runs from its activation to its `Close`; only one accept is under way at a time. */
  predicate CanHappen(s: State, e: Event) {
    match e
    case Begin => !s.pending
    case Settle(sock) => s.pending && sock >= 0
    case Acquire(c) => c < |s.slots| && s.slots[c].active
    case Hangup(c) => c < |s.slots| && s.slots[c].active
    case Close(c) => c < |s.slots| && s.slots[c].active
    case Drop => true
  }

  function Next(s: State, e: Event): (r: State) {
    match e
    case Begin => s.(accepts := s.accepts + 1, pending := true)
    case Settle(sock) =>
      var k := FreeSlot(s.slots);
      if k == |s.slots| then s.(pending := false, refused := s.refused + 1)
      else s.(pending := false, active := s.active + 1, slots := s.slots[k := Slot(sock, true, false, false)])
    case Acquire(c) =>
      if s.ctrl != NOBODY || c >= |s.slots| then s
      else s.(ctrl := c, slots := s.slots[c := s.slots[c].(isController := true)])
    case Hangup(c) => if c >= |s.slots| then s else s.(slots := s.slots[c := ShutOne(s.slots[c])])
    case Close(c) =>
      if c >= |s.slots| then s else
      var mine := s.ctrl == c;
      var slot := s.slots[c].(sock := -1, active := false);
      s.(ctrl := if mine then NOBODY else s.ctrl, active := s.active - 1, disconnects := s.disconnects + 1,
         slots := s.slots[c := if mine then slot.(isController := false) else slot])
    case Drop => s.(ctrl := NOBODY, slots := Dropped(s.slots))
  }

  // ---- What always holds ----

  function ActiveCount(slots: seq<Slot>): (n: nat)
    ensures n <= |slots|
  {
    if |slots| == 0 then 0
    else ActiveCount(slots[..|slots| - 1]) + (if slots[|slots| - 1].active then 1 else 0)
  }

  predicate Good(s: State) {
    && |s.slots| == SLOTS && NOBODY <= s.ctrl < SLOTS
    && (forall i :: 0 <= i < SLOTS ==> (s.slots[i].isController <==> s.ctrl == i))
    && (forall i :: 0 <= i < SLOTS && s.slots[i].isController ==> s.slots[i].active)
    && (forall i :: 0 <= i < SLOTS ==> (s.slots[i].active <==> s.slots[i].sock >= 0))
    && s.active == ActiveCount(s.slots)
    && s.accepts == s.active + s.disconnects + s.refused + (if s.pending then 1 else 0)
  }

  const FREE := Slot(-1, false, false, false)
  const INITIAL := State([FREE, FREE, FREE, FREE], NOBODY, 0, 0, 0, 0, false)

  lemma {:induction false} CountAfterUpdate(slots: seq<Slot>, c: nat, slot: Slot)
    requires c < |slots|
    ensures ActiveCount(slots[c := slot])
         == ActiveCount(slots) - (if slots[c].active then 1 else 0) + (if slot.active then 1 else 0)
  {
    var n := |slots| - 1;
    if c < n {
      CountAfterUpdate(slots[..n], c, slot);
      assert slots[c := slot][..n] == slots[..n][c := slot];
    } else {
      assert slots[c := slot][..n] == slots[..n];
    }
  }

  lemma {:induction false} CountAfterDrop(slots: seq<Slot>)
    ensures ActiveCount(Dropped(slots)) == ActiveCount(slots)
  {
    if |slots| > 0 {
      var n := |slots| - 1;
      CountAfterDrop(slots[..n]);
      assert Dropped(slots)[..n] == Dropped(slots[..n]);
    }
  }

  lemma InitialIsGood()
    ensures Good(INITIAL)
  {
    NoneActive(INITIAL.slots);
  }

  lemma {:induction false} NoneActive(slots: seq<Slot>)
    requires forall i :: 0 <= i < |slots| ==> !slots[i].active
    ensures ActiveCount(slots) == 0
  {
    if |slots| > 0 {
      NoneActive(slots[..|slots| - 1]);
    }
  }

  lemma SettleKeepsGood(s: State, sock: int)
    requires Good(s) && CanHappen(s, Settle(sock))
    ensures Good(Next(s, Settle(sock)))
  {
    var k := FreeSlot(s.slots);
    if k < SLOTS {
      CountAfterUpdate(s.slots, k, Slot(sock, true, false, false));
    }
  }

  lemma AcquireKeepsGood(s: State, c: nat)
    requires Good(s) && CanHappen(s, Acquire(c))
    ensures Good(Next(s, Acquire(c)))
  {
    CountAfterUpdate(s.slots, c, s.slots[c].(isController := true));
  }

  lemma CloseKeepsGood(s: State, c: nat)
    requires Good(s) && CanHappen(s, Close(c))
    ensures Good(Next(s, Close(c)))
  {
    CountAfterUpdate(s.slots, c, Next(s, Close(c)).slots[c]);
  }

  lemma HangupKeepsGood(s: State, c: nat)
    requires Good(s) && CanHappen(s, Hangup(c))
    ensures Good(Next(s, Hangup(c)))
  {
    CountAfterUpdate(s.slots, c, ShutOne(s.slots[c]));
  }

  lemma DropKeepsGood(s: State)
    requires Good(s)
    ensures Good(Next(s, Drop))
  {
    CountAfterDrop(s.slots);
  }

  lemma NextKeepsGood(s: State, e: Event)
    requires Good(s) && CanHappen(s, e)
    ensures Good(Next(s, e))
  {
    match e
    case Begin =>
    case Settle(sock) => SettleKeepsGood(s, sock);
    case Acquire(c) => AcquireKeepsGood(s, c);
    case Hangup(c) => HangupKeepsGood(s, c);
    case Close(c) => CloseKeepsGood(s, c);
    case Drop => DropKeepsGood(s);
  }

  lemma FullMeansCounted(slots: seq<Slot>)
    ensures ActiveCount(slots) == |slots| <==> FreeSlot(slots) == |slots|
  {
    AllActive(slots);
  }

  lemma {:induction false} AllActive(slots: seq<Slot>)
    ensures ActiveCount(slots) == |slots| <==> forall i :: 0 <= i < |slots| ==> slots[i].active
  {
    if |slots| > 0 {
      var n := |slots| - 1;
      AllActive(slots[..n]);
      assert forall i :: 0 <= i < n ==> slots[..n][i] == slots[i];
    }
  }

  /** A client is turned away exactly when the counter says that all slots are taken. */
  lemma RefusedExactlyWhenFull(s: State, sock: int)
    requires Good(s) && CanHappen(s, Settle(sock))
    ensures Next(s, Settle(sock)).refused > s.refused <==> s.active == 4
  {
    FullMeansCounted(s.slots);
  }

  // ---- Whole runs ----

  function After(run: seq<Event>): (s: State) {
    if |run| == 0 then INITIAL else Next(After(run[..|run| - 1]), run[|run| - 1])
  }

  predicate Legal(run: seq<Event>) {
    |run| > 0 ==> var n := |run| - 1; Legal(run[..n]) && CanHappen(After(run[..n]), run[n])
  }

  function HowMany(run: seq<Event>, begin: bool): (n: nat) {
    if |run| == 0 then 0
    else
      var e := run[|run| - 1];
      HowMany(run[..|run| - 1], begin) + (if (begin && e.Begin?) || (!begin && e.Close?) then 1 else 0)
  }

  /** Runs grow by whatever can happen. */
  lemma LegalGrows(run: seq<Event>, e: Event)
    ensures Legal([]) && (Legal(run + [e]) <==> Legal(run) && CanHappen(After(run), e))
  {
    assert (run + [e])[..|run|] == run;
  }

  /** The invariant on every run, and the two totals are what the run contains. */
  lemma {:induction false} RunStaysGood(run: seq<Event>)
    requires Legal(run)
    ensures Good(After(run))
    ensures After(run).accepts == HowMany(run, true) && After(run).disconnects == HowMany(run, false)
  {
    if |run| > 0 {
      var n := |run| - 1;
      RunStaysGood(run[..n]);
      NextKeepsGood(After(run[..n]), run[n]);
    } else {
      InitialIsGood();
    }
  }

  /** Client `c` found the line unowned at event `k`, and has neither left nor been dropped since. */
  ghost predicate Claimed(run: seq<Event>, k: nat, c: nat) {
    && k < |run| && run[k] == Acquire(c) && After(run[..k]).ctrl == NOBODY
    && forall m :: k < m < |run| ==> run[m] != Close(c) && run[m] != Drop
  }

  /** The line belongs to `c` exactly when `c` claimed it: first come, and for that one session only. */
  lemma {:induction false} OwnerExactly(run: seq<Event>, c: nat)
    requires Legal(run)
    ensures After(run).ctrl == c <==> exists k: nat :: Claimed(run, k, c)
  {
    if |run| > 0 {
      var init, e := run[..|run| - 1], run[|run| - 1];
      OwnerExactly(init, c);
      RunStaysGood(init);
      ClaimedStep(init, e, c);
      OwnerAfter(After(init), e, c);
      LastStep(run, init, e);
    } else {
      NobodyClaimed(run, c);
    }
  }

  lemma LastStep(run: seq<Event>, init: seq<Event>, e: Event)
    requires |run| > 0 && init == run[..|run| - 1] && e == run[|run| - 1]
    ensures run == init + [e] && After(run) == Next(After(init), e)
  {
  }

  lemma NobodyClaimed(run: seq<Event>, c: nat)
    requires run == []
    ensures After(run).ctrl == NOBODY && !exists k: nat :: Claimed(run, k, c)
  {
  }

  lemma OwnerAfter(s: State, e: Event, c: nat)
    requires Good(s) && CanHappen(s, e)
    ensures Next(s, e).ctrl == c <==>
            || (e == Acquire(c) && s.ctrl == NOBODY)
            || (e != Close(c) && e != Drop && s.ctrl == c)
  {
  }

  lemma ClaimedStep(run: seq<Event>, e: Event, c: nat)
    ensures (exists k: nat :: Claimed(run + [e], k, c)) <==>
            || (e == Acquire(c) && After(run).ctrl == NOBODY)
            || (e != Close(c) && e != Drop && exists k: nat :: Claimed(run, k, c))
  {
    var run', n := run + [e], |run|;
    assert run'[..n] == run;
    if e == Acquire(c) && After(run).ctrl == NOBODY {
      assert Claimed(run', n, c);
    }
    forall k: nat | k < n ensures Claimed(run', k, c) <==> Claimed(run, k, c) && e != Close(c) && e != Drop {
      ClaimedLater(run, e, k, c);
    }
  }

  lemma ClaimedLater(run: seq<Event>, e: Event, k: nat, c: nat)
    requires k < |run|
    ensures Claimed(run + [e], k, c) <==> Claimed(run, k, c) && e != Close(c) && e != Drop
  {
    var run' := run + [e];
    assert run'[..k] == run[..k] && run'[|run|] == e;
    assert forall m :: 0 <= m < |run| ==> run'[m] == run[m];
  }

  // ---- Who sits where ----

  /** At event `k` the client of this socket got slot `c`, the first free one of four, and has not left since. */
  ghost predicate Seated(run: seq<Event>, k: nat, c: nat, sock: int) {
    && k < |run| && run[k] == Settle(sock) && FirstFree(After(run[..k]).slots, c)
    && forall m :: k < m < |run| ==> run[m] != Close(c)
  }

  predicate FirstFree(slots: seq<Slot>, c: nat) {
    c < 4 && c < |slots| && !slots[c].active && forall i :: 0 <= i < c ==> slots[i].active
  }

  ghost predicate Sits(s: State, c: nat, sock: int) {
    c < |s.slots| && s.slots[c].active && s.slots[c].sock == sock
  }

  /** A slot holds a socket exactly when its client was seated there: a drop or a hangup does not unseat it. */
  lemma {:induction false} SitsExactly(run: seq<Event>, c: nat, sock: int)
    requires Legal(run)
    ensures Sits(After(run), c, sock) <==> exists k: nat :: Seated(run, k, c, sock)
  {
    if |run| > 0 {
      var init, e := run[..|run| - 1], run[|run| - 1];
      SitsExactly(init, c, sock);
      RunStaysGood(init);
      SeatedStep(init, e, c, sock);
      SitsAfter(After(init), e, c, sock);
      LastStep(run, init, e);
    }
  }

  lemma SitsAfter(s: State, e: Event, c: nat, sock: int)
    requires Good(s) && CanHappen(s, e)
    ensures Sits(Next(s, e), c, sock) <==>
            || (e == Settle(sock) && FirstFree(s.slots, c))
            || (e != Close(c) && Sits(s, c, sock))
  {
  }

  lemma SeatedStep(run: seq<Event>, e: Event, c: nat, sock: int)
    ensures (exists k: nat :: Seated(run + [e], k, c, sock)) <==>
            || (e == Settle(sock) && FirstFree(After(run).slots, c))
            || (e != Close(c) && exists k: nat :: Seated(run, k, c, sock))
  {
    var run', n := run + [e], |run|;
    assert run'[..n] == run && run'[n] == e;
    if e == Settle(sock) && FirstFree(After(run).slots, c) {
      assert Seated(run', n, c, sock);
    }
    forall k: nat | k < n ensures Seated(run', k, c, sock) <==> Seated(run, k, c, sock) && e != Close(c) {
      assert run'[..k] == run[..k];
      assert forall m :: 0 <= m < n ==> run'[m] == run[m];
    }
  }

  // ---- Whose sessions are dead ----

  /** At event `k` the socket of the client in slot `c` was shut, and that client has not left since. */
  ghost predicate ShutSince(run: seq<Event>, k: nat, c: nat) {
    && k < |run| && (run[k] == Drop || run[k] == Hangup(c)) && Occupied(After(run[..k]), c)
    && forall m :: k < m < |run| ==> run[m] != Close(c)
  }

  predicate Occupied(s: State, c: nat) {
    c < |s.slots| && s.slots[c].active
  }

  predicate Dead(s: State, c: nat) {
    Occupied(s, c) && s.slots[c].shut
  }

  /** A slot's session is dead exactly when a drop or a failed send hit the very client that is in it. */
  lemma {:induction false} DeadExactly(run: seq<Event>, c: nat)
    requires Legal(run)
    ensures Dead(After(run), c) <==> exists k: nat :: ShutSince(run, k, c)
  {
    if |run| > 0 {
      var init, e := run[..|run| - 1], run[|run| - 1];
      DeadExactly(init, c);
      RunStaysGood(init);
      ShutSinceStep(init, e, c);
      DeadAfter(After(init), e, c);
      LastStep(run, init, e);
    }
  }

  lemma DeadAfter(s: State, e: Event, c: nat)
    requires Good(s) && CanHappen(s, e)
    ensures Dead(Next(s, e), c) <==>
            || ((e == Drop || e == Hangup(c)) && Occupied(s, c))
            || (e != Close(c) && Dead(s, c))
  {
  }

  lemma ShutSinceStep(run: seq<Event>, e: Event, c: nat)
    ensures (exists k: nat :: ShutSince(run + [e], k, c)) <==>
            || ((e == Drop || e == Hangup(c)) && Occupied(After(run), c))
            || (e != Close(c) && exists k: nat :: ShutSince(run, k, c))
  {
    var run', n := run + [e], |run|;
    assert run'[..n] == run && run'[n] == e;
    if (e == Drop || e == Hangup(c)) && Occupied(After(run), c) {
      assert ShutSince(run', n, c);
    }
    forall k: nat | k < n ensures ShutSince(run', k, c) <==> ShutSince(run, k, c) && e != Close(c) {
      assert run'[..k] == run[..k];
      assert forall m :: 0 <= m < n ==> run'[m] == run[m];
    }
  }

  /** Taking an unowned line makes a controller of a dead session exactly when the taker had been shut before. */
  lemma DeadControllerExactly(run: seq<Event>, c: nat)
    requires Legal(run) && After(run).ctrl == NOBODY && CanHappen(After(run), Acquire(c))
    ensures var t := Next(After(run), Acquire(c));
            t.ctrl == c && (t.slots[c].shut <==> exists k: nat :: ShutSince(run, k, c))
  {
    DeadExactly(run, c);
  }

  /** A dropped client keeps its slot until its task ends, and can meanwhile take the line for its dead session. */
  lemma DroppedClientCanTakeTheLine(s: State, c: nat)
    requires Good(s) && c < SLOTS && s.slots[c].active
    ensures CanHappen(Next(s, Drop), Acquire(c))
    ensures var t := Next(Next(s, Drop), Acquire(c)); t.ctrl == c && t.slots[c].active && t.slots[c].shut
  {
  }

  // ---- The table itself ----

  class Table {
    const slots: array<Slot>
    var ctrl: int
    var active: int
    var accepts: nat
    var disconnects: nat
    ghost var refused: nat
    ghost var pending: bool

    ghost function Snapshot(): (s: State)
      reads this, slots
    {
      State(slots[..], ctrl, active, accepts, disconnects, refused, pending)
    }

    constructor ()
      ensures fresh(slots) && Snapshot() == INITIAL && Good(Snapshot())
    {
      slots := new Slot[SLOTS](_ => FREE);
      ctrl, active, accepts, disconnects := NOBODY, 0, 0, 0;
      refused, pending := 0, false;
      new;
      InitialIsGood();
      assert slots[..] == INITIAL.slots;
    }

    method FindFree() returns (k: nat)
      ensures k == FreeSlot(slots[..])
    {
      k := 0;
      while k < slots.Length
        invariant k <= slots.Length && FreeSlot(slots[..]) == k + FreeSlot(slots[k..])
      {
        assert slots[k..][1..] == slots[k + 1..];
        if !slots[k].active {
          break;
        }
        k := k + 1;
      }
    }

    method BeginAccept()
      requires Good(Snapshot()) && CanHappen(Snapshot(), Begin)
      modifies this
      ensures Snapshot() == Next(old(Snapshot()), Begin) && Good(Snapshot())
    {
      NextKeepsGood(Snapshot(), Begin);
      accepts := accepts + 1;
      pending := true;
    }

    method SettleAccept(sock: int) returns (admitted: bool)
      requires Good(Snapshot()) && CanHappen(Snapshot(), Settle(sock))
      modifies this, slots
      ensures Snapshot() == Next(old(Snapshot()), Settle(sock)) && Good(Snapshot())
      ensures admitted == (old(active) < 4)
    {
      NextKeepsGood(Snapshot(), Settle(sock));
      RefusedExactlyWhenFull(Snapshot(), sock);
      ghost var was := slots[..];
      var k := FindFree();
      admitted := k < slots.Length;
      pending := false;
      if admitted {
        slots[k] := Slot(sock, true, false, false);
        assert slots[..] == was[k := slots[k]];
        active := active + 1;
      } else {
        refused := refused + 1;
      }
    }

    method AcquireLine(c: nat)
      requires Good(Snapshot()) && CanHappen(Snapshot(), Acquire(c))
      modifies this, slots
      ensures Snapshot() == Next(old(Snapshot()), Acquire(c)) && Good(Snapshot())
    {
      NextKeepsGood(Snapshot(), Acquire(c));
      ghost var was := slots[..];
      if ctrl == NOBODY {
        ctrl := c;
        slots[c] := slots[c].(isController := true);
        assert slots[..] == was[c := slots[c]];
      }
    }

    /** The end of a client's task; the line coding reverts only if the client still owned the line. */
    method Cleanup(c: nat) returns (revert: bool)
      requires Good(Snapshot()) && CanHappen(Snapshot(), Close(c))
      modifies this, slots
      ensures Snapshot() == Next(old(Snapshot()), Close(c)) && Good(Snapshot())
      ensures revert == (old(ctrl) == c)
    {
      NextKeepsGood(Snapshot(), Close(c));
      ghost var was := slots[..];
      revert := ctrl == c;
      if revert {
        ctrl := NOBODY;
        slots[c] := slots[c].(isController := false);
      }
      CloseClient(c);
      assert slots[..] == was[c := slots[c]];
    }

    method CloseClient(c: nat)
      requires c < slots.Length
      modifies this`active, this`disconnects, slots
      ensures slots[..] ==
              old(slots[..][c := if slots[c].active then slots[c].(sock := -1, active := false) else slots[c]])
      ensures active == old(active) - (if old(slots[c].active) then 1 else 0)
      ensures disconnects == old(disconnects) + (if old(slots[c].active) then 1 else 0)
    {
      if !slots[c].active {
        return;
      }
      slots[c] := slots[c].(sock := -1, active := false);
      disconnects := disconnects + 1;
      active := active - 1;
    }

    /** Everybody is shut, nobody is closed: that is left to the clients' tasks. */
    method DropAll() returns (dropped: nat)
      requires Good(Snapshot())
      modifies this, slots
      ensures Snapshot() == Next(old(Snapshot()), Drop) && Good(Snapshot())
      ensures dropped == active == old(active)
    {
      NextKeepsGood(Snapshot(), Drop);
      ctrl := NOBODY;
      dropped := ShutAll();
    }

    method ShutAll() returns (dropped: nat)
      requires forall i :: 0 <= i < slots.Length ==> (slots[i].active <==> slots[i].sock >= 0)
      modifies slots
      ensures slots[..] == Dropped(old(slots[..])) && dropped == ActiveCount(old(slots[..]))
    {
      ghost var was := slots[..];
      dropped := 0;
      for i := 0 to slots.Length
        invariant slots[..] == Dropped(was[..i]) + was[i..]
        invariant dropped == ActiveCount(was[..i])
      {
        DroppedMore(was, i);
        assert slots[i] == slots[..][i] == was[i];
        var n := DropOne(i);
        dropped := dropped + n;
      }
      assert was[..slots.Length] == was && was[slots.Length..] == [];
    }

    method DropOne(i: nat) returns (n: nat)
      requires i < slots.Length
      modifies slots
      ensures slots[..] == old(slots[..][i := ShutOne(slots[i].(isController := false))])
      ensures n == if old(slots[i].active && slots[i].sock >= 0) then 1 else 0
    {
      n := 0;
      ghost var was := slots[..];
      slots[i] := slots[i].(isController := false);
      if slots[i].active && slots[i].sock >= 0 {
        slots[i] := slots[i].(shut := true);
        n := 1;
      }
      assert slots[..] == was[i := slots[i]];
    }
  }

  lemma DroppedMore(was: seq<Slot>, i: nat)
    requires i < |was|
    ensures var now := Dropped(was[..i]) + was[i..];
            && now[i] == was[i]
            && now[i := ShutOne(was[i].(isController := false))] == Dropped(was[..i + 1]) + was[i + 1..]
    ensures ActiveCount(was[..i + 1]) == ActiveCount(was[..i]) + (if was[i].active then 1 else 0)
  {
    assert was[..i + 1][..i] == was[..i];
  }
}
