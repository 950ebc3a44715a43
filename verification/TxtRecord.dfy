/**
 TXT record data of an mDNS answer: length-prefixed strings, read in a counting pass and a building
 pass that trusts it.
 */
module TxtRecord {
  import opened Bytes

  const EQUALS: byte := 0x3D

  datatype Item = Item(key: seq<byte>, value: Option<seq<byte>>)

  // ---- What the bytes mean ----

  /** The strings from offset `i` up to the end or the first empty one; none if a length overruns the data. */
  function PartsFrom(d: seq<byte>, i: nat): (r: Option<seq<seq<byte>>>)
    requires i <= |d|
    decreases |d| - i
  {
    if i == |d| || d[i] == 0 then Some([])
    else
      var end := i + 1 + d[i];
      if end > |d| then None else Prefixed([d[i + 1..end]], PartsFrom(d, end))
  }

  function Prefixed(done: seq<seq<byte>>, r: Option<seq<seq<byte>>>): (p: Option<seq<seq<byte>>>) {
    if r.None? then None else Some(done + r.value)
  }

  /** Strings with their lengths in front, one after the other. */
  function Frame(parts: seq<seq<byte>>): (d: seq<byte>) {
    if |parts| == 0 then [] else [|parts[0]| % 256] + parts[0] + Frame(parts[1..])
  }

  predicate Framable(parts: seq<seq<byte>>) {
    forall k :: 0 <= k < |parts| ==> 1 <= |parts[k]| <= 255
  }

  predicate Ends(tail: seq<byte>) { |tail| == 0 || tail[0] == 0 }

  /** The bytes before offset `i` do not matter. */
  lemma {:induction false} PartsOfSuffix(front: seq<byte>, d: seq<byte>, i: nat)
    requires i <= |d|
    ensures PartsFrom(front + d, |front| + i) == PartsFrom(d, i)
    decreases |d| - i
  {
    var all, at := front + d, |front| + i;
    if i < |d| && d[i] != 0 && i + 1 + d[i] <= |d| {
      assert all[at + 1..at + 1 + d[i]] == d[i + 1..i + 1 + d[i]];
      PartsOfSuffix(front, d, i + 1 + d[i]);
    }
  }

  lemma ReadOne(part: seq<byte>, rest: seq<byte>)
    requires 1 <= |part| <= 255
    ensures PartsFrom([|part|] + part + rest, 0) == Prefixed([part], PartsFrom(rest, 0))
  {
    var head := [|part|] + part;
    var all := head + rest;
    assert all[0] == |part| && all[1..|head|] == part;
    PartsOfSuffix(head, rest, 0);
  }

  lemma PrefixedTwice(a: seq<seq<byte>>, b: seq<seq<byte>>, r: Option<seq<seq<byte>>>)
    ensures Prefixed(a, Prefixed(b, r)) == Prefixed(a + b, r)
    ensures Prefixed([], r) == r
  {
    if r.Some? {
      assert a + (b + r.value) == a + b + r.value;
      assert [] + r.value == r.value;
    }
  }

  /** Reading inverts framing, and stops at an empty string whatever follows it. */
  lemma {:induction false} FrameReadsBack(parts: seq<seq<byte>>, tail: seq<byte>)
    requires Framable(parts) && Ends(tail)
    ensures PartsFrom(Frame(parts) + tail, 0) == Some(parts)
    decreases |parts|
  {
    if |parts| == 0 {
      assert Frame(parts) + tail == tail;
    } else {
      var part, more := parts[0], parts[1..];
      assert parts == [part] + more;
      FrameOne(part, more);
      Regroup([|part|] + part, Frame(more), tail);
      ReadOne(part, Frame(more) + tail);
      FrameReadsBack(more, tail);
    }
  }

  lemma {:induction false} WhatIsReadIsFramed(d: seq<byte>, i: nat) returns (tail: seq<byte>)
    requires i <= |d| && PartsFrom(d, i).Some?
    ensures Ends(tail) && d[i..] == Frame(PartsFrom(d, i).value) + tail
    decreases |d| - i
  {
    if i == |d| || d[i] == 0 {
      tail := d[i..];
      assert d[i..] == [] + tail;
    } else {
      var end := i + 1 + d[i];
      var part := d[i + 1..end];
      tail := WhatIsReadIsFramed(d, end);
      var rest := PartsFrom(d, end).value;
      FrameOne(part, rest);
      Regroup([|part|] + part, Frame(rest), tail);
      SplitAt(d, i, end);
    }
  }

  lemma SplitAt(d: seq<byte>, i: nat, end: nat)
    requires i < end <= |d|
    ensures d[i..] == [d[i]] + d[i + 1..end] + d[end..]
  {
  }

  lemma FrameOne(part: seq<byte>, rest: seq<seq<byte>>)
    requires |part| <= 255
    ensures Frame([part] + rest) == [|part|] + part + Frame(rest)
  {
    assert ([part] + rest)[1..] == rest;
  }

  lemma {:induction false} ReadPartsAreFramable(d: seq<byte>, i: nat)
    requires i <= |d| && PartsFrom(d, i).Some?
    ensures Framable(PartsFrom(d, i).value)
    decreases |d| - i
  {
    if i < |d| && d[i] != 0 {
      ReadPartsAreFramable(d, i + 1 + d[i]);
    }
  }

  /** Data passes the count exactly when it is framed strings up to its end or to an empty string. */
  lemma PassesExactlyWhenFramed(d: seq<byte>, parts: seq<seq<byte>>)
    ensures PartsFrom(d, 0) == Some(parts) <==>
            Framable(parts) && exists tail :: Ends(tail) && d == Frame(parts) + tail
  {
    if PartsFrom(d, 0) == Some(parts) {
      ReadPartsAreFramable(d, 0);
      var tail := WhatIsReadIsFramed(d, 0);
      assert d[0..] == d;
      assert Ends(tail) && d == Frame(parts) + tail;
    }
    if Framable(parts) {
      if tail :| Ends(tail) && d == Frame(parts) + tail {
        FrameReadsBack(parts, tail);
      }
    }
  }

  // ---- Keys and values ----

  /** Position of the first '=', or the length. */
  function KeyEnd(part: seq<byte>): (k: nat)
    ensures k <= |part| && EQUALS !in part[..k] && (k < |part| ==> part[k] == EQUALS)
  {
    if |part| == 0 || part[0] == EQUALS then 0
    else
      var k := 1 + KeyEnd(part[1..]);
      assert part[..k] == [part[0]] + part[1..][..k - 1];
      k
  }

  function ItemOf(part: seq<byte>): (item: Item) {
    var k := KeyEnd(part);
    Item(part[..k], if k + 1 < |part| then Some(part[k + 1..]) else None)
  }

  predicate HasKey(part: seq<byte>) { |part| > 0 && part[0] != EQUALS }

  /** The strings that have a key, in order. */
  function Items(parts: seq<seq<byte>>): (items: seq<Item>)
    ensures |items| <= |parts|
  {
    if |parts| == 0 then []
    else
      var last := parts[|parts| - 1];
      Items(parts[..|parts| - 1]) + (if HasKey(last) then [ItemOf(last)] else [])
  }

  /** No item has an empty key, nor one with an equals sign in it. */
  lemma {:induction false} EveryItemHasAKey(parts: seq<seq<byte>>)
    ensures forall k :: 0 <= k < |Items(parts)| ==> Items(parts)[k].key != [] && 0x3D !in Items(parts)[k].key
  {
    if |parts| > 0 {
      EveryItemHasAKey(parts[..|parts| - 1]);
    }
  }

  /** A string that is empty or begins with an equals sign gives no item; any other gives its own, in its place. */
  lemma {:induction false} OneItemPerKeyedString(a: seq<seq<byte>>, part: seq<byte>, b: seq<seq<byte>>)
    ensures part == [] || part[0] == 0x3D ==> Items(a + [part] + b) == Items(a) + Items(b)
    ensures part != [] && part[0] != 0x3D ==> Items(a + [part] + b) == Items(a) + [ItemOf(part)] + Items(b)
    decreases |b|
  {
    var all := a + [part] + b;
    if b == [] {
      assert all[..|all| - 1] == a && all[|all| - 1] == part;
    } else {
      assert all[..|all| - 1] == a + [part] + b[..|b| - 1];
      OneItemPerKeyedString(a, part, b[..|b| - 1]);
    }
  }

  /** Two strings give the same item exactly when they are equal, up to one trailing '=' after the bare key. */
  lemma SameItemExactly(a: seq<byte>, b: seq<byte>)
    ensures ItemOf(a) == ItemOf(b) <==>
            a == b || (0x3D !in a && b == a + [0x3D]) || (0x3D !in b && a == b + [0x3D])
  {
    ItemSpells(a);
    ItemSpells(b);
    if EQUALS !in a && b == a + [EQUALS] {
      BareKey(a);
    }
    if EQUALS !in b && a == b + [EQUALS] {
      BareKey(b);
    }
  }

  lemma BareKey(a: seq<byte>)
    requires EQUALS !in a
    ensures ItemOf(a) == ItemOf(a + [EQUALS]) == Item(a, None)
  {
    KeyEndIs(a, |a|);
    KeyEndIs(a + [EQUALS], |a|);
  }

  lemma {:induction false} KeyEndIs(part: seq<byte>, k: nat)
    requires k <= |part| && (forall j :: 0 <= j < k ==> part[j] != EQUALS) && (k < |part| ==> part[k] == EQUALS)
    ensures KeyEnd(part) == k
  {
    if k > 0 {
      KeyEndIs(part[1..], k - 1);
    }
  }

  lemma ItemSpells(part: seq<byte>)
    ensures var i, k := ItemOf(part), KeyEnd(part);
            && EQUALS !in i.key
            && (i.value.Some? ==> part == i.key + [EQUALS] + i.value.value)
            && (i.value.None? ==> part == i.key || part == i.key + [EQUALS])
  {
  }

  // ---- The two passes ----

  function Result(d: seq<byte>): (items: seq<Item>) {
    if |d| == 1 || PartsFrom(d, 0).None? then [] else Items(PartsFrom(d, 0).value)
  }

  /** The counting pass; one single byte counts as no data at all. */
  method CountItems(d: seq<byte>) returns (n: int)
    requires |d| < 0x1_0000
    ensures |d| == 1 ==> n == 0
    ensures |d| != 1 ==> n == if PartsFrom(d, 0).None? then -1 else |PartsFrom(d, 0).value|
  {
    if |d| == 1 {
      return 0;
    }
    n := 0;
    var i := 0;
    ghost var done: seq<seq<byte>> := [];
    PrefixedTwice([], [], PartsFrom(d, 0));
    while i < |d|
      invariant i <= |d| && n == |done|
      invariant PartsFrom(d, 0) == Prefixed(done, PartsFrom(d, i))
    {
      var part := d[i];
      if part == 0 {
        break;
      }
      if i + 1 + part > |d| {
        return -1;
      }
      PrefixedTwice(done, [d[i + 1..i + 1 + part]], PartsFrom(d, i + 1 + part));
      done := done + [d[i + 1..i + 1 + part]];
      i := i + 1 + part;
      n := n + 1;
    }
  }

  /** -1 for a string without a key. */
  method KeyLength(part: seq<byte>) returns (k: int)
    requires |part| > 0
    ensures k == if HasKey(part) then KeyEnd(part) else -1
  {
    if part[0] == EQUALS {
      return -1;
    }
    k := 0;
    while k < |part|
      invariant 0 <= k <= |part| && forall j :: 0 <= j < k ==> part[j] != EQUALS
    {
      if part[k] == EQUALS {
        break;
      }
      k := k + 1;
    }
    KeyEndIs(part, k);
  }

  function ValueLen(item: Item): (n: nat) {
    if item.value.Some? then |item.value.value| else 0
  }

  /** One keyed string at `start`: its item, the length recorded for the value, and the cursor behind it. */
  method ReadItem(d: seq<byte>, start: nat, size: nat, keyLen: nat)
    returns (item: Item, valueLen: nat, i: nat)
    requires start + size <= |d| && keyLen == KeyEnd(d[start..start + size])
    ensures item == ItemOf(d[start..start + size]) && i == start + size
    ensures valueLen == ValueLen(item)
  {
    ghost var part := d[start..start + size];
    item, valueLen := Item(d[start..start + keyLen], None), 0;
    i := start + keyLen + (if keyLen < size then 1 else 0);
    assert item.key == part[..keyLen];
    if size - keyLen - 1 > 0 {
      valueLen := size - keyLen - 1;
      assert d[i..i + valueLen] == part[keyLen + 1..];
      item := item.(value := Some(d[i..i + valueLen]));
      i := i + valueLen;
    }
  }

  /** The tables filled so far hold exactly the items of these strings. */
  ghost predicate Holds(txt: seq<Item>, lens: seq<nat>, parts: seq<seq<byte>>) {
    txt == Items(parts) && |lens| == |txt| && forall k :: 0 <= k < |txt| ==> lens[k] == ValueLen(txt[k])
  }

  lemma HoldsMore(txt: seq<Item>, lens: seq<nat>, parts: seq<seq<byte>>, part: seq<byte>)
    requires Holds(txt, lens, parts)
    ensures !HasKey(part) ==> Holds(txt, lens, parts + [part])
    ensures HasKey(part) ==> Holds(txt + [ItemOf(part)], lens + [ValueLen(ItemOf(part))], parts + [part])
  {
    assert (parts + [part])[..|parts|] == parts;
  }

  /** One string of `size` bytes at `start`: skipped without a key, else put into the next free slot. */
  method TakePart(d: seq<byte>, start: nat, size: nat, txt: array<Item>, txtLen: array<nat>, num: nat,
                  ghost done: seq<seq<byte>>, ghost part: seq<byte>)
    returns (num': nat, i: nat)
    requires 0 < size && start + size <= |d| && part == d[start..start + size] && num < txt.Length == txtLen.Length
    requires Holds(txt[..num], txtLen[..num], done)
    modifies txt, txtLen
    ensures i == start + size && num' <= txt.Length
    ensures Holds(txt[..num'], txtLen[..num'], done + [part])
  {
    ghost var had, hadLens := txt[..num], txtLen[..num];
    HoldsMore(had, hadLens, done, part);
    var keyLen := KeyLength(d[start..start + size]);
    if keyLen < 0 {
      num', i := num, start + size;
    } else {
      var item, valueLen;
      item, valueLen, i := ReadItem(d, start, size, keyLen);
      txt[num], txtLen[num] := item, valueLen;
      num' := num + 1;
      assert txt[..num'] == had + [ItemOf(part)] && txtLen[..num'] == hadLens + [ValueLen(item)];
    }
  }

  /** The strings of the data are those already read and, from offset `i` on, the rest. */
  ghost predicate Reading(d: seq<byte>, i: nat, done: seq<seq<byte>>, rest: seq<seq<byte>>) {
    i <= |d| && PartsFrom(d, i) == Some(rest) && PartsFrom(d, 0) == Some(done + rest)
  }

  /** Where the strings from here on are sound, so is the next one. */
  lemma NextPart(d: seq<byte>, i: nat, done: seq<seq<byte>>, rest: seq<seq<byte>>)
    requires Reading(d, i, done, rest) && i < |d| && d[i] != 0
    ensures var end := i + 1 + d[i];
            && end <= |d| && |rest| > 0 && rest[0] == d[i + 1..end]
            && Reading(d, end, done + [rest[0]], rest[1..])
  {
    assert done + rest == done + [rest[0]] + rest[1..];
  }

  lemma AllRead(d: seq<byte>, i: nat, done: seq<seq<byte>>, rest: seq<seq<byte>>)
    requires Reading(d, i, done, rest) && rest == []
    ensures PartsFrom(d, 0) == Some(done)
  {
    assert done + rest == done;
  }

  /**
   The building pass. Its own length check cannot fail, and the bound on the number of items never
   ends it early, so neither appears in what it returns.
   */
  method Create(d: seq<byte>) returns (items: seq<Item>, lens: seq<nat>)
    requires |d| < 0x1_0000
    ensures items == Result(d) && |lens| == |items|
    ensures forall k :: 0 <= k < |items| ==>
              lens[k] == if items[k].value.Some? then |items[k].value.value| else 0
  {
    items, lens := [], [];
    var n := CountItems(d);
    if n <= 0 {
      return;
    }
    var txt, txtLen := new Item[n](_ => Item([], None)), new nat[n](_ => 0);
    var num: nat, i: nat := 0, 0;
    ghost var done: seq<seq<byte>>, rest := [], PartsFrom(d, 0).value;
    assert done + rest == rest;
    while i < |d| && num < n
      invariant num <= n == |done| + |rest|
      invariant Reading(d, i, done, rest)
      invariant Holds(txt[..num], txtLen[..num], done)
    {
      var size := d[i];
      if size == 0 {
        break;
      }
      NextPart(d, i, done, rest);
      i := i + 1;
      assert i + size <= |d|;
      num, i := TakePart(d, i, size, txt, txtLen, num, done, rest[0]);
      done, rest := done + [rest[0]], rest[1..];
    }
    assert rest == [];
    AllRead(d, i, done, rest);
    items, lens := txt[..num], txtLen[..num];
  }

  // ---- Round trip ----

  predicate Writable(item: Item) {
    && |item.key| > 0 && EQUALS !in item.key && |Spell(item)| <= 255
    && (item.value.Some? ==> |item.value.value| > 0)
  }

  /** "key" or "key=value". */
  function Spell(item: Item): (part: seq<byte>) {
    if item.value.None? then item.key else item.key + [EQUALS] + item.value.value
  }

  function SpellAll(items: seq<Item>): (parts: seq<seq<byte>>)
    ensures |parts| == |items| && forall k :: 0 <= k < |items| ==> parts[k] == Spell(items[k])
  {
    seq(|items|, k requires 0 <= k < |items| => Spell(items[k]))
  }

  lemma ItemReadsBack(item: Item)
    requires Writable(item)
    ensures HasKey(Spell(item)) && ItemOf(Spell(item)) == item
  {
    KeyEndIs(Spell(item), |item.key|);
    assert Spell(item)[..|item.key|] == item.key;
    assert item.value.Some? ==> Spell(item)[|item.key| + 1..] == item.value.value;
  }

  lemma {:induction false} ItemsReadBack(items: seq<Item>)
    requires forall k :: 0 <= k < |items| ==> Writable(items[k])
    ensures Items(SpellAll(items)) == items
  {
    if |items| > 0 {
      var n := |items| - 1;
      ItemsReadBack(items[..n]);
      ItemReadsBack(items[n]);
      assert SpellAll(items)[..n] == SpellAll(items[..n]);
    }
  }

  /** Written TXT data reads back item by item, whatever stands behind a terminating empty string. */
  lemma TxtReadsBack(items: seq<Item>, tail: seq<byte>)
    requires forall k :: 0 <= k < |items| ==> Writable(items[k])
    requires Ends(tail)
    ensures forall k :: 0 <= k < |items| ==> 1 <= |SpellAll(items)[k]| <= 255
    ensures Result(Frame(SpellAll(items)) + tail) == items
  {
    ItemsReadBack(items);
    FrameReadsBack(SpellAll(items), tail);
  }

  /** A lone length byte is accepted as empty, though the same byte in front of too few others is an error. */
  lemma LoneByteIsNotAnError(c: byte, more: seq<byte>)
    requires 0 < |more| < c
    ensures Result([c]) == [] && PartsFrom([c], 0).None? && PartsFrom([c] + more, 0).None?
  {
  }
}
