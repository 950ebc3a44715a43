/**
 The querier's code over its list of searches: membership, detaching, finishing, and the two walks
 that the timer and the packet parser make under the service lock.  Each is proved to do a sequence
 of the steps of `SearchLifecycle`.
 */
module Querier {
  import opened Bytes
  import opened SearchLifecycle

  /** What one timer walk meets for each search: has it timed out, is it due again, is there room in the queue. */
  datatype Round = Round(expired: Id -> bool, due: Id -> bool, room: Id -> bool)

  function TickOf(s: State, id: Id, r: Round): (step: Step)
    requires id in s.searches
  {
    var sends := s.searches[id].phase == Init || r.due(id);
    Tick(id, r.expired(id), r.room(id) && (r.expired(id) || sends))
  }

  /** The walk as the steps it is made of; they are taken one after the other from the front. */
  function TickAll(s: State, ids: seq<Id>, r: Round): (t: State)
    requires forall id :: id in ids ==> id in s.list && id in s.searches
    decreases |ids|
  {
    if |ids| == 0 then s
    else
      var t := Apply(s, TickOf(s, ids[0], r));
      TickAll(t, ids[1..], r)
  }

  /** What the timer owes one search: an END when it has timed out, else a SEND when it is new or due again. */
  function Owed(s: State, id: Id, r: Round): (a: seq<Action>)
    requires id in s.searches
  {
    if s.searches[id].phase == Off then []
    else if r.expired(id) then [End(id)]
    else if s.searches[id].phase == Running && !r.due(id) then []
    else [Send(id)]
  }

  /** One tick queues what is owed if there is room, and nothing else; only an END that was queued switches off. */
  lemma TickPaysWhatIsOwed(s: State, id: Id, r: Round)
    requires id in s.list && id in s.searches
    ensures var t := Apply(s, TickOf(s, id, r));
            && t.queue == s.queue + (if r.room(id) then Owed(s, id, r) else [])
            && (Owed(s, id, r) == [End(id)] && r.room(id) ==> t.searches[id].phase == Off)
            && (Owed(s, id, r) == [End(id)] && !r.room(id) ==> t.searches[id].phase == Running)
            && (Owed(s, id, r) == [Send(id)] ==> t.searches[id].phase == Running)
            && (Owed(s, id, r) == [] ==> t == s)
            && t == s.(queue := t.queue, searches := s.searches[id := s.searches[id].(phase := t.searches[id].phase)])
  {
  }

  ghost function OwedAll(s: State, ids: seq<Id>, r: Round): (a: seq<Action>)
    requires forall id :: id in ids ==> id in s.searches
  {
    if |ids| == 0 then [] else (if r.room(ids[0]) then Owed(s, ids[0], r) else []) + OwedAll(s, ids[1..], r)
  }

  /** A whole walk queues, in list order, what was owed to each search when it began. */
  lemma {:induction false} WalkPaysWhatIsOwed(s: State, ids: seq<Id>, r: Round)
    requires NoTwice(ids) && forall id :: id in ids ==> id in s.list && id in s.searches
    ensures TickAll(s, ids, r).queue == s.queue + OwedAll(s, ids, r)
    decreases |ids|
  {
    if |ids| > 0 {
      var t := FirstTick(s, ids, r);
      WalkPaysWhatIsOwed(t, ids[1..], r);
      OwedUnchanged(s, t, ids[1..], r);
    }
  }

  lemma FirstTick(s: State, ids: seq<Id>, r: Round) returns (t: State)
    requires |ids| > 0 && NoTwice(ids) && forall id :: id in ids ==> id in s.list && id in s.searches
    ensures forall id :: id in ids[1..] ==> id in t.list && id in t.searches && t.searches[id] == s.searches[id]
    ensures NoTwice(ids[1..]) && TickAll(s, ids, r) == TickAll(t, ids[1..], r)
    ensures t.queue == s.queue + (if r.room(ids[0]) then Owed(s, ids[0], r) else [])
  {
    t := Apply(s, TickOf(s, ids[0], r));
    TickPaysWhatIsOwed(s, ids[0], r);
    assert ids[0] !in ids[1..];
  }

  lemma {:induction false} OwedUnchanged(s: State, t: State, ids: seq<Id>, r: Round)
    requires forall id :: id in ids ==> id in s.searches && id in t.searches && t.searches[id] == s.searches[id]
    ensures OwedAll(s, ids, r) == OwedAll(t, ids, r)
    decreases |ids|
  {
    if |ids| > 0 {
      OwedUnchanged(s, t, ids[1..], r);
    }
  }

  function FinishAll(s: State, ids: seq<Id>, full: Id -> bool): (t: State)
    decreases |ids|
  {
    if |ids| == 0 then s
    else FinishAll(if full(ids[0]) then Finish(s, ids[0]) else s, ids[1..], full)
  }

  /** A whole timer walk keeps the standing of every search. */
  lemma {:induction false} TimerWalkKeepsInv(s: State, ids: seq<Id>, r: Round)
    requires Inv(s) && forall id :: id in ids ==> id in s.list && id in s.searches
    ensures Inv(TickAll(s, ids, r)) && TickAll(s, ids, r).list == s.list
    decreases |ids|
  {
    if |ids| > 0 {
      var step := TickOf(s, ids[0], r);
      StepKeepsInv(s, step);
      TimerWalkKeepsInv(Apply(s, step), ids[1..], r);
    }
  }

  /** So does a whole parser walk, and exactly the full searches among those it visits leave the list. */
  lemma {:induction false} ParserWalkKeepsInv(s: State, ids: seq<Id>, full: Id -> bool)
    requires Inv(s)
    ensures Inv(FinishAll(s, ids, full))
    ensures forall id :: id in FinishAll(s, ids, full).list <==> id in s.list && !(id in ids && full(id))
    decreases |ids|
  {
    if |ids| > 0 {
      var t := if full(ids[0]) then Finish(s, ids[0]) else s;
      if full(ids[0]) && ids[0] in s.list {
        FinishKeeps(s, ids[0]);
      }
      ParserWalkKeepsInv(t, ids[1..], full);
      assert forall id :: id in ids <==> id == ids[0] || id in ids[1..];
    }
  }

  class Searches {
    var list: seq<Id>
    var queue: seq<Action>
    var inHand: Option<Action>
    var searches: map<Id, Search>

    ghost function View(): (s: State)
      reads this
    {
      State(list, queue, inHand, searches)
    }

    constructor ()
      ensures View() == START
    {
      list, queue, inHand, searches := [], [], None, map[];
    }

    method IsInList(id: Id) returns (found: bool)
      ensures found <==> id in list
    {
      var i := 0;
      while i < |list|
        invariant 0 <= i <= |list| && id !in list[..i]
      {
        if list[i] == id {
          return true;
        }
        i := i + 1;
      }
      found := false;
    }

    /** Unlinks the search and leaves the order of the others alone. */
    method Detach(id: Id)
      modifies this`list
      ensures list == Without(old(list), id)
    {
      var kept, rest := [], list;
      while |rest| > 0
        invariant kept + Without(rest, id) == Without(old(list), id)
        decreases |rest|
      {
        var head := rest[0];
        if head != id {
          assert kept + ([head] + Without(rest[1..], id)) == (kept + [head]) + Without(rest[1..], id);
          kept := kept + [head];
        }
        rest := rest[1..];
      }
      assert kept + [] == kept;
      list := kept;
    }

    /** Guarded by membership, so a stale action cannot reach a search that is gone. */
    method FinishSearch(id: Id)
      requires forall x :: x in list ==> x in searches
      modifies this
      ensures View() == Finish(old(View()), id)
    {
      var listed := IsInList(id);
      if !listed {
        return;
      }
      var q := searches[id].(phase := Off);
      Detach(id);
      if q.notifier {
        q := q.(notifier := false, notified := q.notified + 1);
      }
      searches := searches[id := q.(signalled := q.signalled + 1)];
    }

    /** Executes the action the service task has in hand. */
    method RunInHand()
      requires Inv(View()) && inHand.Some?
      modifies this
      ensures View() == Apply(old(View()), RunAction) && Inv(View())
    {
      RunActionKeeps(View());
      var a := inHand.value;
      inHand := None;
      match a
      case Add(id) =>
        list := [id] + list;
      case Send(id) =>
        var found := IsInList(id);
        if found {
          searches := searches[id := searches[id].(sent := searches[id].sent + 1)];
        }
      case End(id) =>
        FinishSearch(id);
    }

    /** One search of the timer's walk. */
    method TickOne(id: Id, r: Round)
      requires Inv(View()) && id in list
      modifies this`queue, this`searches
      ensures View() == Apply(old(View()), TickOf(old(View()), id, r))
    {
      var q := searches[id];
      if q.phase != Off {
        if r.expired(id) {
          searches := searches[id := q.(phase := Off)];
          if r.room(id) {
            queue := queue + [End(id)];
          } else {
            searches := searches[id := q.(phase := Running)];
          }
        } else if q.phase == Init || r.due(id) {
          searches := searches[id := q.(phase := Running)];
          if r.room(id) {
            queue := queue + [Send(id)];
          }
        } else {
          assert searches == searches[id := q.(phase := Running)];
        }
      }
    }

    /** The timer's walk over the whole list. */
    method StartStop(r: Round)
      requires Inv(View())
      modifies this
      ensures View() == TickAll(old(View()), old(list), r)
      ensures Inv(View()) && list == old(list)
    {
      ghost var goal := TickAll(View(), list, r);
      TimerWalkKeepsInv(View(), list, r);
      var i := 0;
      assert list[i..] == list;
      while i < |list|
        invariant 0 <= i <= |list| && list == old(list) && Inv(View())
        invariant TickAll(View(), list[i..], r) == goal
      {
        assert list[i..][1..] == list[i + 1..];
        StepKeepsInv(View(), TickOf(View(), list[i], r));
        TickOne(list[i], r);
        i := i + 1;
      }
    }

    /** The parser's walk: the successor is read before the search may leave the list. */
    method Done(full: Id -> bool)
      requires Inv(View())
      modifies this
      ensures View() == FinishAll(old(View()), old(list), full) && Inv(View())
      ensures forall id :: id in list <==> id in old(list) && !full(id)
    {
      ghost var goal := FinishAll(View(), list, full);
      ParserWalkKeepsInv(View(), list, full);
      var rest := list;
      while |rest| > 0
        invariant FinishAll(View(), rest, full) == goal && Inv(View())
        decreases |rest|
      {
        var s := rest[0];
        rest := rest[1..];
        if full(s) {
          if s in list {
            FinishKeeps(View(), s);
          }
          FinishSearch(s);
        }
      }
    }

    /** Refused while the search is not off; else unlinked, and never notified again. */
    method Delete(id: Id) returns (deleted: bool)
      requires Inv(View()) && Enabled(View(), AsyncDelete(id))
      modifies this
      ensures View() == Apply(old(View()), AsyncDelete(id)) && Inv(View())
      ensures deleted == (old(searches)[id].phase == Off)
    {
      DeleteKeeps(View(), AsyncDelete(id));
      deleted := searches[id].phase == Off;
      if deleted {
        Detach(id);
        searches := searches[id := searches[id].(alive := false, notifier := false)];
      }
    }
  }
}
