/**
 The log ring: a bounded window on an unbounded log, and contention drops that are accounted for by
 marker lines.
 */
module LogRing {
  import opened Bytes

  datatype Line = Text(msg: seq<byte>) | Marker(msg: seq<byte>, dropped: nat)

  datatype Entry = Entry(ts: nat, line: Line)

  // <  and   log lines dropped (mutex contention)>
  const DROPPED_HEAD: seq<byte> := [0x3C]
  const DROPPED_TAIL: seq<byte> := [
    0x20, 0x6C, 0x6F, 0x67, 0x20, 0x6C, 0x69, 0x6E, 0x65, 0x73, 0x20, 0x64, 0x72, 0x6F, 0x70, 0x70, 0x65, 0x64,
    0x20, 0x28, 0x6D, 0x75, 0x74, 0x65, 0x78, 0x20, 0x63, 0x6F, 0x6E, 0x74, 0x65, 0x6E, 0x74, 0x69, 0x6F, 0x6E,
    0x29, 0x3E
  ]

  function Digits(n: nat): (d: seq<byte>)
    ensures |d| > 0
  {
    if n < 10 then [0x30 + n] else Digits(n / 10) + [0x30 + n % 10]
  }

  function MarkerText(n: nat): (m: seq<byte>) {
    DROPPED_HEAD + Digits(n) + DROPPED_TAIL
  }

  lemma MarkerSpelled(n: nat)
    ensures MarkerText(n) == Ascii("<") + Digits(n) + Ascii(" log lines dropped (mutex contention)>")
  {
    assert DROPPED_HEAD == Ascii("<");
    TailSpelled();
  }

  lemma TailSpelled()
    ensures DROPPED_TAIL == Ascii(" log lines dropped (mutex contention)>")
  {
  }

  // ---- The ring ----

  /** Two line numbers share a ring slot only when they are a whole ring apart. */
  lemma SameSlotIsFarApart(a: nat, b: nat, n: nat)
    requires n > 0 && a < b
    ensures a % n == b % n ==> a + n <= b
  {
    if a % n == b % n {
      var q := b / n - a / n;
      MultipleOf(a, b, n);
      if q <= 0 {
        MulShrinks(n, q);
      } else {
        MulGrows(n, q);
      }
    }
  }

  lemma MultipleOf(a: nat, b: nat, n: nat)
    requires n > 0 && a % n == b % n
    ensures b - a == n * (b / n - a / n)
  {
  }

  lemma MulGrows(n: nat, q: int)
    requires q >= 1
    ensures n * q >= n
  {
  }

  lemma MulShrinks(n: nat, q: int)
    requires q <= 0
    ensures n * q <= 0
  {
  }

  function Oldest(head: nat, cap: nat): (o: nat)
    ensures o <= head
  {
    if head > cap then head - cap else 0
  }

  /** Drops that some marker of the log owns up to. */
  function Marked(log: seq<Entry>): (n: nat) {
    if |log| == 0 then 0
    else
      var last := log[|log| - 1].line;
      Marked(log[..|log| - 1]) + (if last.Marker? then last.dropped else 0)
  }

  /** Every marker says what it stands for. */
  ghost predicate Truthful(log: seq<Entry>) {
    forall i :: 0 <= i < |log| && log[i].line.Marker? ==> log[i].line.msg == MarkerText(log[i].line.dropped)
  }

  /** Two numbers are never printed alike, so a marker's text tells how many lines were dropped. */
  lemma {:induction false} DigitsAreInjective(a: nat, b: nat)
    ensures Digits(a) == Digits(b) ==> a == b
  {
    if Digits(a) == Digits(b) {
      DigitsEnd(a);
      DigitsEnd(b);
      if a >= 10 && b >= 10 {
        DigitsAreInjective(a / 10, b / 10);
      }
    }
  }

  /** The last digit, and what stands before it. */
  lemma DigitsEnd(n: nat)
    ensures var d := Digits(n); var k := |d| - 1;
            d[k] == 0x30 + n % 10 && d[..k] == if n < 10 then [] else Digits(n / 10)
  {
  }

  lemma MarkersTellTheCount(a: nat, b: nat)
    ensures MarkerText(a) == MarkerText(b) <==> a == b
  {
    var s, t, h := MarkerText(a), MarkerText(b), |DROPPED_HEAD|;
    if s == t {
      assert s[h..|s| - |DROPPED_TAIL|] == Digits(a) && t[h..|t| - |DROPPED_TAIL|] == Digits(b);
      DigitsAreInjective(a, b);
    }
  }

  /** The messages that made it into the log, without the markers. */
  function Texts(log: seq<Entry>): (t: seq<seq<byte>>) {
    if |log| == 0 then []
    else
      var last := log[|log| - 1].line;
      Texts(log[..|log| - 1]) + (if last.Text? then [last.msg] else [])
  }

  function SlotOf(number: nat, cap: nat): (i: nat)
    requires cap > 0
    ensures i < cap
  {
    number % cap
  }

  /** The ring slot of every number in the window holds that line of the unbounded log. */
  ghost predicate Window(lines: seq<Entry>, log: seq<Entry>) {
    |lines| > 0 && forall q {:trigger SlotOf(q, |lines|)} ::
      Oldest(|log|, |lines|) <= q < |log| ==> lines[SlotOf(q, |lines|)] == log[q]
  }

  lemma WindowGrows(lines: seq<Entry>, log: seq<Entry>, e: Entry)
    requires Window(lines, log)
    ensures Window(lines[SlotOf(|log|, |lines|) := e], log + [e])
  {
    var n, lines', log' := |lines|, lines[SlotOf(|log|, |lines|) := e], log + [e];
    forall q | Oldest(|log'|, n) <= q < |log'| ensures lines'[SlotOf(q, n)] == log'[q] {
      if q < |log| {
        SameSlotIsFarApart(q, |log|, n);
      }
    }
  }

  class Ring {
    const lines: array<Entry>
    var head: nat        // next sequence number
    var pending: nat     // drops not yet owned up to
    ghost var log: seq<Entry>
    ghost var drops: nat

    ghost predicate Valid()
      reads this, lines
    {
      && lines.Length > 0 && |log| == head
      && Window(lines[..], log)
      && Marked(log) + pending == drops
      && Truthful(log)
    }

    constructor (cap: nat)
      requires cap > 0
      ensures Valid() && fresh(lines) && lines.Length == cap && log == [] && drops == 0
    {
      lines := new Entry[cap](_ => Entry(0, Text([])));
      head, pending, log, drops := 0, 0, [], 0;
    }

    method Append(e: Entry)
      requires Valid()
      requires e.line.Marker? ==> e.line.dropped == pending > 0 && e.line.msg == MarkerText(pending)
      modifies this`head, this`log, this`pending, lines
      ensures Valid() && log == old(log) + [e] && head == old(head) + 1
      ensures pending == if e.line.Marker? then 0 else old(pending)
      ensures Texts(log) == Texts(old(log)) + (if e.line.Text? then [e.line.msg] else [])
      ensures drops == old(drops)
    {
      WindowGrows(lines[..], log, e);
      ghost var was := lines[..];
      lines[SlotOf(head, lines.Length)] := e;
      assert lines[..] == was[SlotOf(head, lines.Length) := e];
      TextsSnoc(log, e);
      log := log + [e];
      head := head + 1;
      if e.line.Marker? {
        pending := 0;
      }
    }

    /** One stored line, empty if the message starts with a line break; a busy mutex leaves the ring alone. */
    method Hook(msg: seq<byte>, ts: nat, free: bool)
      requires Valid()
      modifies this, lines
      ensures Valid()
      ensures drops == old(drops) + (if free then 0 else 1)
      ensures pending == if free then 0 else old(pending) + 1
      ensures log == old(log)
                   + (if free && old(pending) > 0
                      then [Entry(ts, Marker(MarkerText(old(pending)), old(pending)))] else [])
                   + (if free then [Entry(ts, Text(msg))] else [])
      ensures Texts(log) == Texts(old(log)) + (if free then [msg] else [])
    {
      if free {
        if pending > 0 {
          Append(Entry(ts, Marker(MarkerText(pending), pending)));
        }
        Append(Entry(ts, Text(msg)));
      } else {
        pending := pending + 1;
        drops := drops + 1;
      }
    }
  }

  /** One of the newest lines stands at its number modulo the size, exactly as it was logged. */
  lemma NewestLinesAreThere(ring: Ring, q: nat)
    requires ring.Valid() && q < |ring.log| <= q + ring.lines.Length
    ensures ring.lines[q % ring.lines.Length] == ring.log[q]
  {
    assert ring.lines[..][SlotOf(q, ring.lines.Length)] == ring.log[q];
  }

  /** A whole history of log calls: nothing is lost silently. */
  method Record(ring: Ring, msgs: seq<seq<byte>>, times: seq<nat>, free: seq<bool>)
    requires ring.Valid() && ring.log == [] && ring.drops == 0
    requires |msgs| == |times| == |free|
    modifies ring, ring.lines
    ensures ring.Valid()
    ensures Texts(ring.log) == Kept(msgs, free)
    ensures Marked(ring.log) + ring.pending == |msgs| - |Kept(msgs, free)|
  {
    for k := 0 to |msgs|
      invariant ring.Valid()
      invariant Texts(ring.log) == Kept(msgs[..k], free[..k])
      invariant ring.drops == k - |Kept(msgs[..k], free[..k])|
    {
      assert msgs[..k + 1][..k] == msgs[..k] && free[..k + 1][..k] == free[..k];
      ring.Hook(msgs[k], times[k], free[k]);
    }
    assert msgs[..|msgs|] == msgs && free[..|msgs|] == free;
  }

  /** The messages whose call found the mutex free. */
  function Kept(msgs: seq<seq<byte>>, free: seq<bool>): (k: seq<seq<byte>>)
    requires |msgs| == |free|
    ensures |k| <= |msgs|
  {
    if |msgs| == 0 then []
    else
      var n := |msgs| - 1;
      Kept(msgs[..n], free[..n]) + (if free[n] then [msgs[n]] else [])
  }

  lemma TextsSnoc(log: seq<Entry>, e: Entry)
    ensures Texts(log + [e]) == Texts(log) + (if e.line.Text? then [e.line.msg] else [])
    ensures Marked(log + [e]) == Marked(log) + (if e.line.Marker? then e.line.dropped else 0)
  {
    assert (log + [e])[..|log|] == log;
  }
}
