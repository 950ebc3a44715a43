/**
 The client slots and the replay over one joint history: what becomes of radio bytes between a drop of
 all clients and the next client's arrival.
 */
module Reconnect {
  import opened Bytes
  import ClientTable
  import Replay

  datatype State = State(table: ClientTable.State, replay: Replay.State)

  /** A step of the table alone (a source that goes down drops without opening the window), or of both. */
  datatype Event =
    | Alone(e: ClientTable.Event)
    | Settle(sock: int, now: nat)
    | DropAll(now: nat)
    | Rx(now: nat, data: seq<byte>)

  predicate CanHappen(s: State, e: Event) {
    match e
    case Alone(te) => !te.Settle? && ClientTable.CanHappen(s.table, te)
    case Settle(sock, _) => ClientTable.CanHappen(s.table, ClientTable.Settle(sock))
    case DropAll(_) => true
    case Rx(_, _) => true
  }

  /** Data goes to every occupied slot, dead or alive, and is captured only when there is none. */
  function Next(s: State, e: Event): (t: State) {
    match e
    case Alone(te) => s.(table := ClientTable.Next(s.table, te))
    case Settle(sock, now) =>
      State(ClientTable.Next(s.table, ClientTable.Settle(sock)),
            if s.table.active < ClientTable.SLOTS then Replay.Next(s.replay, Replay.Accept(now)) else s.replay)
    case DropAll(now) => State(ClientTable.Next(s.table, ClientTable.Drop), Replay.Next(s.replay, Replay.Arm(now)))
    case Rx(now, data) =>
      var clients := if s.table.active > 0 then s.table.active else 0;
      s.(replay := Replay.Next(s.replay, Replay.Rx(now, data, clients)))
  }

  lemma NextKeepsGood(s: State, e: Event)
    requires ClientTable.Good(s.table) && CanHappen(s, e)
    ensures ClientTable.Good(Next(s, e).table)
  {
    match e
    case Alone(te) => ClientTable.NextKeepsGood(s.table, te);
    case Settle(sock, _) => ClientTable.NextKeepsGood(s.table, ClientTable.Settle(sock));
    case DropAll(_) => ClientTable.NextKeepsGood(s.table, ClientTable.Drop);
    case Rx(_, _) =>
  }

  // ---- After a drop ----

  /** What can go on until the next client arrives or the next drop comes. */
  predicate Waiting(e: Event) {
    e.Rx? || (e.Alone? && (e.e.Acquire? || e.e.Hangup? || e.e.Close? || e.e.Begin?))
  }

  function After(s: State, mid: seq<Event>): (t: State) {
    if |mid| == 0 then s else Next(After(s, mid[..|mid| - 1]), mid[|mid| - 1])
  }

  /** Such a history from `s` on. */
  predicate Quiet(s: State, mid: seq<Event>) {
    |mid| > 0 ==>
      var init, e := mid[..|mid| - 1], mid[|mid| - 1];
      Quiet(s, init) && Waiting(e) && CanHappen(After(s, init), e)
  }

  function Closes(mid: seq<Event>): (n: nat) {
    if |mid| == 0 then 0
    else
      var e := mid[|mid| - 1];
      Closes(mid[..|mid| - 1]) + (if e.Alone? && e.e.Close? then 1 else 0)
  }

  /** The data said once `dropped` clients' tasks have ended. */
  function SaidAfter(mid: seq<Event>, dropped: int): (data: seq<byte>) {
    if |mid| == 0 then []
    else
      var init, e := mid[..|mid| - 1], mid[|mid| - 1];
      SaidAfter(init, dropped) + (if e.Rx? && Closes(init) == dropped then e.data else [])
  }

  predicate InWindow(mid: seq<Event>, until: nat) {
    forall k :: 0 <= k < |mid| && mid[k].Rx? ==> mid[k].now <= until
  }

  predicate AllDead(s: ClientTable.State) {
    forall c :: 0 <= c < |s.slots| && s.slots[c].active ==> s.slots[c].shut
  }

  /** After the events so far, `active` slots are still held by dead sessions and the window holds `kept`. */
  predicate Stands(t: State, active: int, until: nat, kept: seq<byte>) {
    ClientTable.Good(t.table) && AllDead(t.table) && t.table.active == active && t.replay == Replay.Open(until, kept)
  }

  /**
   Between a drop and the next client the window holds exactly what the radio said after the last dropped
   client's task had ended.  Whatever it said before went to dead sockets and is kept for nobody.
   */
  lemma {:induction false} KeptOnlyAfterTheLastClose(s: State, now: nat, mid: seq<Event>)
    requires ClientTable.Good(s.table) && InWindow(mid, now + 8_000_000) && Quiet(Next(s, DropAll(now)), mid)
    ensures Stands(After(Next(s, DropAll(now)), mid), s.table.active - Closes(mid), now + 8_000_000,
                   SaidAfter(mid, s.table.active))
  {
    var start := Next(s, DropAll(now));
    if |mid| == 0 {
      NextKeepsGood(s, DropAll(now));
    } else {
      var init, e := mid[..|mid| - 1], mid[|mid| - 1];
      KeptOnlyAfterTheLastClose(s, now, init);
      StandsAfter(After(start, init), s.table.active - Closes(init), now + 8_000_000,
                  SaidAfter(init, s.table.active), e);
    }
  }

  lemma StandsAfter(u: State, active: int, until: nat, kept: seq<byte>, e: Event)
    requires Stands(u, active, until, kept) && Waiting(e) && CanHappen(u, e) && (e.Rx? ==> e.now <= until)
    ensures Stands(Next(u, e), active - (if e.Alone? && e.e.Close? then 1 else 0), until,
                   kept + (if e.Rx? && active == 0 then e.data else []))
  {
    NextKeepsGood(u, e);
    assert kept + [] == kept;
    if e.Alone? {
      StaysDead(u.table, e.e);
    }
  }

  lemma StaysDead(s: ClientTable.State, e: ClientTable.Event)
    requires ClientTable.Good(s) && AllDead(s) && Waiting(Alone(e)) && ClientTable.CanHappen(s, e)
    ensures AllDead(ClientTable.Next(s, e))
    ensures ClientTable.Next(s, e).active == s.active - (if e.Close? then 1 else 0)
  {
  }

  /** So the next client gets the newest of just that, if it comes in time. */
  lemma NextClientGetsTheRest(s: State, now: nat, mid: seq<Event>, later: nat)
    requires ClientTable.Good(s.table) && InWindow(mid, now + 8_000_000) && Quiet(Next(s, DropAll(now)), mid)
    ensures Replay.Sent(After(Next(s, DropAll(now)), mid).replay, Replay.Accept(later)) ==
            var said := SaidAfter(mid, s.table.active);
            if later <= now + 8_000_000 then said[|said| - Min(|said|, 512)..] else []
  {
    KeptOnlyAfterTheLastClose(s, now, mid);
  }

  /**
   There is a place for that client while fewer than four of the dropped ones hold theirs.  Then what waited
   is given away once; a client that is turned away leaves it for the next.
   */
  lemma GivenAwayOnce(s: State, now: nat, mid: seq<Event>, sock: int, later: nat)
    requires ClientTable.Good(s.table) && InWindow(mid, now + 8_000_000) && Quiet(Next(s, DropAll(now)), mid)
    requires CanHappen(After(Next(s, DropAll(now)), mid), Settle(sock, later))
    ensures var before := After(Next(s, DropAll(now)), mid);
            var after := Next(before, Settle(sock, later));
            var admitted := s.table.active - Closes(mid) < 4;
            && (after.table.refused == before.table.refused <==> admitted)
            && after.replay == (if admitted && SaidAfter(mid, s.table.active) != [] then Replay.Shut
                                else before.replay)
  {
    KeptOnlyAfterTheLastClose(s, now, mid);
    ClientTable.RefusedExactlyWhenFull(After(Next(s, DropAll(now)), mid).table, sock);
  }

  /** Data reaches no live client and is not kept exactly when only dead sessions hold slots or no window is open. */
  lemma LostExactly(s: State, now: nat, data: seq<byte>)
    requires ClientTable.Good(s.table) && data != []
    ensures var r := Next(s, Rx(now, data)).replay;
            (AllDead(s.table) && !(s.replay.Open? && r == Replay.Open(s.replay.until, s.replay.held + data)))
            <==>
            AllDead(s.table) && (s.table.active > 0 || s.replay.Shut? || now > s.replay.until)
  {
    if s.replay.Open? {
      assert |s.replay.held + data| > |s.replay.held|;
    }
  }
}
