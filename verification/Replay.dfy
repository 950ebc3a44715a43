/**
 The reboot replay: what the radio says while nobody is connected is kept for a short window and
 handed to the next client.
 */
module Replay {
  import opened Bytes

  const ROOM := 512
  const WINDOW := 8_000_000   // microseconds

  /** The newest bytes win. */
  function Newest(s: seq<byte>): (t: seq<byte>)
    ensures |t| == Min(|s|, 512) && t == s[|s| - |t|..]
  {
    s[|s| - Min(|s|, ROOM)..]
  }

  // ---- The protocol ----

  /** All clients dropped; data from the source while this many clients are connected; a client accepted. */
  datatype Event = Arm(now: nat) | Rx(now: nat, data: seq<byte>, clients: nat) | Accept(now: nat)

  datatype State = Shut | Open(until: nat, held: seq<byte>)

  function Next(s: State, e: Event): (r: State) {
    match e
    case Arm(now) => Open(now + WINDOW, [])
    case Rx(now, data, clients) =>
      if s.Shut? || data == [] || clients > 0 then s
      else if now > s.until then Shut
      else Open(s.until, s.held + data)
    case Accept(now) =>
      if s.Shut? || s.held == [] then s else Shut
  }

  function Sent(s: State, e: Event): (data: seq<byte>) {
    if e.Accept? && s.Open? && e.now <= s.until then Newest(s.held) else []
  }

  function After(run: seq<Event>): (s: State) {
    if |run| == 0 then Shut else Next(After(run[..|run| - 1]), run[|run| - 1])
  }

  // ---- What a client is owed, read off the history alone ----

  /** Index of the last drop, or -1. */
  function LastArm(run: seq<Event>): (a: int)
    ensures -1 <= a < |run|
    ensures a >= 0 ==> run[a].Arm?
    ensures forall k :: a < k < |run| ==> !run[k].Arm?
  {
    if |run| == 0 then -1
    else if run[|run| - 1].Arm? then |run| - 1
    else LastArm(run[..|run| - 1])
  }

  /** What the source said to an empty house. */
  function Unheard(run: seq<Event>): (data: seq<byte>) {
    if |run| == 0 then []
    else
      var e := run[|run| - 1];
      Unheard(run[..|run| - 1]) + (if e.Rx? && e.clients == 0 then e.data else [])
  }

  /** What was waiting just before event `j`, after the drop at event `a`. */
  function Waiting(run: seq<Event>, a: nat, j: nat): (data: seq<byte>)
    requires a < j <= |run|
  {
    Unheard(run[a + 1..j])
  }

  /** An earlier client since event `a` was accepted with something waiting. */
  ghost predicate Claimed(run: seq<Event>, a: nat) {
    exists j :: a < j < |run| && run[j].Accept? && Waiting(run, a, j) != []
  }

  /** The last 512 bytes of it, for eight seconds after the drop. */
  ghost function Owed(run: seq<Event>, now: nat): (data: seq<byte>) {
    var a := LastArm(run);
    if a < 0 || now > run[a].now + 8_000_000 || Claimed(run, a) then []
    else
      var waiting := Waiting(run, a, |run|);
      waiting[|waiting| - Min(|waiting|, 512)..]
  }

  predicate InOrder(run: seq<Event>) {
    forall i, j :: 0 <= i < j < |run| ==> run[i].now <= run[j].now
  }

  /** The window as the last drop opened it, unless it was claimed or, later than its end, found expired. */
  predicate Tracks(s: State, until: nat, waiting: seq<byte>, claimed: bool, last: nat) {
    if claimed then s == Shut
    else s == Open(until, waiting) || (s == Shut && last > until)
  }

  lemma KeepsTrack(s: State, e: Event, until: nat, waiting: seq<byte>, claimed: bool, last: nat)
    requires Tracks(s, until, waiting, claimed, last) && last <= e.now && !e.Arm?
    ensures Tracks(Next(s, e), until, waiting + (if e.Rx? && e.clients == 0 then e.data else []),
                   claimed || (e.Accept? && waiting != []), e.now)
  {
    assert waiting + [] == waiting;
  }

  /** The state is what the history since the last drop says. */
  ghost predicate Faithful(run: seq<Event>, s: State) {
    var a := LastArm(run);
    if a < 0 then s == Shut
    else Tracks(s, run[a].now + WINDOW, Waiting(run, a, |run|), Claimed(run, a), run[|run| - 1].now)
  }

  lemma {:induction false} StaysFaithful(run: seq<Event>)
    requires InOrder(run)
    ensures Faithful(run, After(run))
  {
    if |run| > 0 {
      var n := |run| - 1;
      StaysFaithful(run[..n]);
      assert run == run[..n] + [run[n]];
      assert n > 0 ==> run[..n][n - 1] == run[n - 1];
      StepIsFaithful(run[..n], After(run[..n]), run[n]);
    }
  }

  lemma StepIsFaithful(run: seq<Event>, s: State, e: Event)
    requires Faithful(run, s) && (|run| > 0 ==> run[|run| - 1].now <= e.now)
    ensures Faithful(run + [e], Next(s, e))
  {
    if e.Arm? {
      FreshWindow(run, e);
    } else {
      SameWindow(run, e);
      if LastArm(run) >= 0 {
        LaterIsFaithful(run, LastArm(run), s, e);
      }
    }
  }

  lemma SameWindow(run: seq<Event>, e: Event)
    requires !e.Arm?
    ensures LastArm(run + [e]) == LastArm(run)
    ensures LastArm(run) >= 0 ==> (run + [e])[LastArm(run)] == run[LastArm(run)]
  {
    assert (run + [e])[..|run|] == run;
  }

  lemma LaterIsFaithful(run: seq<Event>, a: nat, s: State, e: Event)
    requires a < |run| && run[|run| - 1].now <= e.now && !e.Arm?
    requires Tracks(s, run[a].now + WINDOW, Waiting(run, a, |run|), Claimed(run, a), run[|run| - 1].now)
    ensures Tracks(Next(s, e), run[a].now + WINDOW, Waiting(run + [e], a, |run| + 1), Claimed(run + [e], a), e.now)
  {
    WaitingMore(run, a, e);
    ClaimedMore(run, a, e);
    KeepsTrack(s, e, run[a].now + WINDOW, Waiting(run, a, |run|), Claimed(run, a), run[|run| - 1].now);
  }

  lemma FreshWindow(run: seq<Event>, e: Event)
    requires e.Arm?
    ensures LastArm(run + [e]) == |run|
    ensures Waiting(run + [e], |run|, |run| + 1) == [] && !Claimed(run + [e], |run|)
  {
    assert (run + [e])[|run|] == e;
    assert (run + [e])[|run| + 1..|run| + 1] == [];
  }

  lemma WaitingMore(run: seq<Event>, a: nat, e: Event)
    requires a < |run|
    ensures Waiting(run + [e], a, |run| + 1) ==
            Waiting(run, a, |run|) + (if e.Rx? && e.clients == 0 then e.data else [])
  {
    var tail := (run + [e])[a + 1..|run| + 1];
    assert tail[..|tail| - 1] == run[a + 1..|run|];
  }

  lemma WaitingBefore(run: seq<Event>, e: Event, a: nat, j: nat)
    requires a < j <= |run|
    ensures Waiting(run + [e], a, j) == Waiting(run, a, j)
  {
    assert (run + [e])[a + 1..j] == run[a + 1..j];
  }

  lemma ClaimedMore(run: seq<Event>, a: nat, e: Event)
    requires a < |run|
    ensures Claimed(run + [e], a) <==> Claimed(run, a) || (e.Accept? && Waiting(run, a, |run|) != [])
  {
    forall j | a < j <= |run| ensures Waiting(run + [e], a, j) == Waiting(run, a, j) {
      WaitingBefore(run, e, a, j);
    }
    assert forall j :: 0 <= j < |run| ==> (run + [e])[j] == run[j];
    assert (run + [e])[|run|] == e;
    if e.Accept? && Waiting(run, a, |run|) != [] {
      assert Waiting(run + [e], a, |run|) != [];
    }
  }

  /** After every history the accepted client gets exactly what it is owed: never late, never a second time. */
  lemma ClientGetsWhatItIsOwed(run: seq<Event>, now: nat)
    requires InOrder(run + [Accept(now)])
    ensures Sent(After(run), Accept(now)) == Owed(run, now)
  {
    var all := run + [Accept(now)];
    forall i, j | 0 <= i < j < |run| ensures run[i].now <= run[j].now {
      assert all[i] == run[i] && all[j] == run[j];
    }
    assert all[|run|].now == now && (|run| > 0 ==> all[|run| - 1].now <= now);
    StaysFaithful(run);
    GivenWhatIsOwed(run, After(run), now);
  }

  lemma GivenWhatIsOwed(run: seq<Event>, s: State, now: nat)
    requires Faithful(run, s) && (|run| > 0 ==> run[|run| - 1].now <= now)
    ensures Sent(s, Accept(now)) == Owed(run, now)
  {
  }

  /** Two clients that both get something have a drop between them, whatever the clock does. */
  lemma OneClientPerDrop(run: seq<Event>, i: nat, j: nat)
    requires i < j < |run|
    requires Sent(After(run[..i]), run[i]) != [] && Sent(After(run[..j]), run[j]) != []
    ensures exists k :: i < k < j && run[k].Arm?
  {
    ShutBySending(run, i);
    if forall k :: i < k < j ==> !run[k].Arm? {
      StaysShut(run, i + 1, j);
    }
  }

  lemma ShutBySending(run: seq<Event>, i: nat)
    requires i < |run| && Sent(After(run[..i]), run[i]) != []
    ensures After(run[..i + 1]) == Shut
  {
    assert run[..i + 1][..i] == run[..i];
  }

  lemma {:induction false} StaysShut(run: seq<Event>, i: nat, j: nat)
    requires i <= j <= |run| && After(run[..i]) == Shut
    requires forall k :: i <= k < j ==> !run[k].Arm?
    ensures After(run[..j]) == Shut
    decreases j
  {
    if i < j {
      StaysShut(run, i, j - 1);
      assert run[..j][..j - 1] == run[..j - 1];
    }
  }

  // ---- The buffer ----

  class Buffer {
    const bytes: array<byte>
    var len: nat
    var until: nat               // 0: window shut
    ghost var held: seq<byte>    // everything captured since the last drop

    ghost predicate Valid()
      reads this, bytes
    {
      && bytes.Length == ROOM && len <= ROOM
      && bytes[..len] == Newest(held)
    }

    ghost function State(): (s: State)
      reads this
    {
      if until == 0 then Shut else Open(until, held)
    }

    constructor ()
      ensures Valid() && fresh(bytes) && State() == Shut
    {
      bytes := new byte[ROOM](_ => 0);
      len, until, held := 0, 0, [];
    }

    method ArmWindow(now: nat)
      requires Valid()
      modifies this
      ensures Valid() && State() == Next(old(State()), Arm(now))
    {
      len, until, held := 0, now + WINDOW, [];
    }

    /** One byte: append while there is room, else shift the oldest byte out. */
    method Keep(b: byte)
      requires Valid()
      modifies this`len, this`held, bytes
      ensures Valid() && held == old(held) + [b]
    {
      ghost var was := bytes[..len];
      if len < ROOM {
        bytes[len] := b;
        len := len + 1;
        assert bytes[..len] == was + [b];
      } else {
        forall i | 0 <= i < ROOM - 1 {
          bytes[i] := bytes[i + 1];
        }
        bytes[ROOM - 1] := b;
        assert bytes[..len] == was[1..] + [b];
      }
      held := held + [b];
    }

    method Capture(data: seq<byte>, now: nat)
      requires Valid() && |data| > 0
      modifies this, bytes
      ensures Valid() && State() == Next(old(State()), Rx(now, data, 0))
    {
      if until == 0 {
        return;
      }
      if now > until {
        len, until, held := 0, 0, [];
        return;
      }
      ghost var had := held;
      for i := 0 to |data|
        invariant Valid() && until == old(until) && held == had + data[..i]
      {
        Keep(data[i]);
      }
      assert data[..|data|] == data;
    }

    /** Source data is captured only when it went to no client. */
    method OnRx(data: seq<byte>, clients: nat, now: nat)
      requires Valid()
      modifies this, bytes
      ensures Valid() && State() == Next(old(State()), Rx(now, data, clients))
    {
      if |data| == 0 {
        return;
      }
      if clients == 0 {
        Capture(data, now);
      }
    }

    /** A client without anything waiting leaves the window open. */
    method Flush(now: nat) returns (sent: seq<byte>)
      requires Valid()
      modifies this
      ensures Valid() && State() == Next(old(State()), Accept(now))
      ensures sent == Sent(old(State()), Accept(now))
    {
      sent := [];
      if until == 0 || len == 0 {
        return;
      }
      if now <= until {
        sent := bytes[..len];
      }
      len, until, held := 0, 0, [];
    }

    method Handle(e: Event) returns (sent: seq<byte>)
      requires Valid()
      modifies this, bytes
      ensures Valid() && State() == Next(old(State()), e) && sent == Sent(old(State()), e)
    {
      sent := [];
      match e
      case Arm(now) => ArmWindow(now);
      case Rx(now, data, clients) => OnRx(data, clients, now);
      case Accept(now) => sent := Flush(now);
    }
  }

  function Answer(run: seq<Event>, k: nat): (data: seq<byte>)
    requires k < |run|
  {
    Sent(After(run[..k]), run[k])
  }

  lemma AnswersAreOwed(run: seq<Event>, k: nat)
    requires InOrder(run) && k < |run| && run[k].Accept?
    ensures Answer(run, k) == Owed(run[..k], run[k].now)
  {
    assert forall i :: 0 <= i <= k ==> (run[..k] + [Accept(run[k].now)])[i] == run[i];
    ClientGetsWhatItIsOwed(run[..k], run[k].now);
  }

  /** A whole history: every client of it gets what the events before it owe. */
  method Serve(b: Buffer, run: seq<Event>) returns (out: seq<seq<byte>>)
    requires b.Valid() && b.State() == Shut && InOrder(run)
    modifies b, b.bytes
    ensures b.Valid() && |out| == |run|
    ensures forall k :: 0 <= k < |run| ==> out[k] == if run[k].Accept? then Owed(run[..k], run[k].now) else []
  {
    out := ServeAll(b, run);
    forall k | 0 <= k < |run| ensures out[k] == if run[k].Accept? then Owed(run[..k], run[k].now) else [] {
      if run[k].Accept? {
        AnswersAreOwed(run, k);
      }
    }
  }

  method ServeAll(b: Buffer, run: seq<Event>) returns (out: seq<seq<byte>>)
    requires b.Valid() && b.State() == Shut
    modifies b, b.bytes
    ensures b.Valid() && |out| == |run| && forall k :: 0 <= k < |run| ==> out[k] == Answer(run, k)
  {
    out := [];
    for k := 0 to |run|
      invariant b.Valid() && b.State() == After(run[..k]) && |out| == k
      invariant forall i :: 0 <= i < k ==> out[i] == Answer(run, i)
    {
      assert run[..k + 1][..k] == run[..k];
      var data := b.Handle(run[k]);
      out := out + [data];
    }
  }
}
