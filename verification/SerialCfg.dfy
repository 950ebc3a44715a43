/**
 The eight-slot table of per-device line codings against a plain map from device key to coding.
 A slot whose blob is missing, of another version or marked unused counts as `Free`.
 */
module SerialCfg {
  import opened Bytes

  const SLOTS := 8
  const KEY_MAX := 32

  datatype Coding = Coding(baud: nat, bits: nat, parity: nat, stop: nat)

  datatype Slot = Free | Used(key: string, coding: Coding)

  function Truncate(key: string): (k: string)
    ensures |k| <= KEY_MAX
  {
    if |key| <= KEY_MAX then key else key[..KEY_MAX]
  }

  // ---- The table as a map ----

  ghost predicate Distinct(slots: seq<Slot>) {
    forall i, j :: 0 <= i < j < |slots| && slots[i].Used? && slots[j].Used? ==> slots[i].key != slots[j].key
  }

  ghost predicate KeysFit(slots: seq<Slot>) {
    forall i :: 0 <= i < |slots| && slots[i].Used? ==> 1 <= |slots[i].key| <= KEY_MAX
  }

  ghost predicate Full(slots: seq<Slot>) {
    forall i :: 0 <= i < |slots| ==> slots[i].Used?
  }

  function AsMap(slots: seq<Slot>): (m: map<string, Coding>) {
    if |slots| == 0 then map[]
    else
      var rest, last := AsMap(slots[..|slots| - 1]), slots[|slots| - 1];
      if last.Used? && last.key !in rest then rest[last.key := last.coding] else rest
  }

  lemma {:induction false} AsMapSpec(slots: seq<Slot>)
    requires Distinct(slots)
    ensures forall i :: 0 <= i < |slots| && slots[i].Used? ==>
              slots[i].key in AsMap(slots) && AsMap(slots)[slots[i].key] == slots[i].coding
    ensures forall k :: k in AsMap(slots) ==> exists i :: 0 <= i < |slots| && slots[i].Used? && slots[i].key == k
  {
    if |slots| > 0 {
      var n := |slots| - 1;
      AsMapSpec(slots[..n]);
      forall k | k in AsMap(slots) ensures exists i :: 0 <= i < |slots| && slots[i].Used? && slots[i].key == k {
        if k in AsMap(slots[..n]) {
          var i :| 0 <= i < n && slots[..n][i].Used? && slots[..n][i].key == k;
          assert slots[i].key == k;
        } else {
          assert slots[n].key == k;
        }
      }
    }
  }

  // ---- What the operations do to the slots ----

  /** First used slot with this key, or -1. */
  function Match(slots: seq<Slot>, key: string): (i: int)
    ensures -1 <= i < |slots|
    ensures i >= 0 ==> slots[i].Used? && slots[i].key == key
    ensures forall j :: 0 <= j < |slots| && (j < i || i < 0) ==> !(slots[j].Used? && slots[j].key == key)
  {
    if |slots| == 0 then -1
    else
      var n := |slots| - 1;
      var i := Match(slots[..n], key);
      if i >= 0 then i else if slots[n].Used? && slots[n].key == key then n else -1
  }

  function FirstFree(slots: seq<Slot>): (i: int)
    ensures -1 <= i < |slots|
    ensures i >= 0 ==> slots[i].Free?
    ensures forall j :: 0 <= j < |slots| && (j < i || i < 0) ==> slots[j].Used?
  {
    if |slots| == 0 then -1
    else
      var n := |slots| - 1;
      var i := FirstFree(slots[..n]);
      if i >= 0 then i else if slots[n].Free? then n else -1
  }

  /** Replace a match, else take the first free slot, else evict slot 0. */
  function Target(slots: seq<Slot>, key: string): (i: int)
    requires |slots| == SLOTS
    ensures 0 <= i < SLOTS
  {
    if Match(slots, key) >= 0 then Match(slots, key) else if FirstFree(slots) >= 0 then FirstFree(slots) else 0
  }

  function Upserted(slots: seq<Slot>, key: string, coding: Coding): (r: seq<Slot>)
    requires |slots| == SLOTS
    ensures |r| == SLOTS
  {
    slots[Target(slots, key) := Used(Truncate(key), coding)]
  }

  function Deleted(slots: seq<Slot>, key: string): (r: seq<Slot>)
    ensures |r| == |slots|
  {
    if Match(slots, key) >= 0 then slots[Match(slots, key) := Free] else slots
  }

  function Listed(slots: seq<Slot>): (items: seq<Slot>) {
    if |slots| == 0 then []
    else Listed(slots[..|slots| - 1]) + (if slots[|slots| - 1].Used? then [slots[|slots| - 1]] else [])
  }

  datatype Error = Ok | InvalidArg | NotFound | StoreFailed

  /**
   What becomes of a write: the blob could not be set; it was set and the commit failed, in which case it
   may or may not be there afterwards; or both went through.
   */
  datatype Store = NotSet | Uncommitted(lasting: bool) | Committed

  predicate Lands(store: Store) {
    store.Committed? || (store.Uncommitted? && store.lasting)
  }

  class Table {
    const slots: array<Slot>

    ghost predicate Valid()
      reads this
    {
      slots.Length == SLOTS
    }

    constructor ()
      ensures Valid() && fresh(slots)
      ensures forall i :: 0 <= i < SLOTS ==> slots[i] == Free
    {
      slots := new Slot[SLOTS](_ => Free);
    }

    method Lookup(key: string) returns (found: Option<Coding>)
      requires Valid()
      ensures key == "" ==> found == None
      ensures key != "" ==>
                found == if Match(slots[..], key) < 0 then None else Some(slots[Match(slots[..], key)].coding)
    {
      found := None;
      if key == "" {
        return;
      }
      var i := 0;
      while i < SLOTS
        invariant 0 <= i <= SLOTS
        invariant forall j :: 0 <= j < i ==> !(slots[j].Used? && slots[j].key == key)
      {
        if slots[i].Used? && slots[i].key == key {
          assert Match(slots[..], key) == i;
          return Some(slots[i].coding);
        }
        i := i + 1;
      }
      assert Match(slots[..], key) < 0;
    }

    method Upsert(key: string, coding: Coding, store: Store) returns (err: Error)
      requires Valid()
      modifies slots
      ensures err == if key == "" then InvalidArg else if store.Committed? then Ok else StoreFailed
      ensures slots[..] == if key != "" && Lands(store) then Upserted(old(slots[..]), key, coding) else old(slots[..])
    {
      if key == "" {
        return InvalidArg;
      }
      var hit, free := -1, -1;
      var i := 0;
      while i < SLOTS && hit < 0
        invariant 0 <= i <= SLOTS && -1 <= hit < i && -1 <= free < i
        invariant hit >= 0 ==> hit == i - 1 && slots[hit].Used? && slots[hit].key == key
        invariant forall j :: 0 <= j < i && j != hit ==> !(slots[j].Used? && slots[j].key == key)
        invariant free >= 0 ==> slots[free].Free?
        invariant forall j :: 0 <= j < i && (j < free || free < 0) ==> slots[j].Used?
      {
        if slots[i].Used? {
          if slots[i].key == key {
            hit := i;
          }
        } else if free < 0 {
          free := i;
        }
        i := i + 1;
      }
      assert hit == Match(slots[..], key);
      assert hit < 0 ==> free == FirstFree(slots[..]);
      var slot := if hit >= 0 then hit else if free >= 0 then free else 0;
      if Lands(store) {
        slots[slot] := Used(Truncate(key), coding);
      }
      err := if store.Committed? then Ok else StoreFailed;
    }

    method Delete(key: string, store: Store) returns (err: Error)
      requires Valid()
      modifies slots
      ensures err == if key == "" then InvalidArg
                     else if Match(old(slots[..]), key) < 0 then NotFound
                     else if store.Committed? then Ok else StoreFailed
      ensures slots[..] == if key != "" && Lands(store) then Deleted(old(slots[..]), key) else old(slots[..])
    {
      if key == "" {
        return InvalidArg;
      }
      var i := 0;
      while i < SLOTS
        invariant 0 <= i <= SLOTS && slots[..] == old(slots[..])
        invariant forall j :: 0 <= j < i ==> !(slots[j].Used? && slots[j].key == key)
      {
        if slots[i].Used? && slots[i].key == key {
          assert Match(slots[..], key) == i;
          if Lands(store) {
            slots[i] := Free;
          }
          return if store.Committed? then Ok else StoreFailed;
        }
        i := i + 1;
      }
      assert Match(slots[..], key) < 0;
      err := NotFound;
    }

    method List(cap: int) returns (items: seq<Slot>)
      requires Valid()
      ensures var all := Listed(slots[..]); items == if cap < 0 then [] else if cap < |all| then all[..cap] else all
    {
      items := [];
      if cap <= 0 {
        return;
      }
      var i := 0;
      while i < SLOTS && |items| < cap
        invariant 0 <= i <= SLOTS && |items| <= cap
        invariant items == Listed(slots[..i])
      {
        assert slots[..i + 1][..i] == slots[..i];
        if slots[i].Used? {
          items := items + [slots[i]];
        }
        i := i + 1;
      }
      ListedPrefix(slots[..], i);
      assert slots[..][..i] == slots[..i] && slots[..][..SLOTS] == slots[..];
    }
  }

  lemma {:induction false} ListedPrefix(slots: seq<Slot>, i: nat)
    requires i <= |slots|
    ensures |Listed(slots[..i])| <= |Listed(slots)| && Listed(slots)[..|Listed(slots[..i])|] == Listed(slots[..i])
  {
    if i < |slots| {
      var n := |slots| - 1;
      ListedPrefix(slots[..n], i);
      assert slots[..n][..i] == slots[..i];
    } else {
      assert slots[..i] == slots;
    }
  }

  // ---- Refinement ----

  /** With keys that fit, lookup is map lookup. */
  lemma LookupIsMapLookup(slots: seq<Slot>, key: string)
    requires Distinct(slots)
    ensures Match(slots, key) >= 0 <==> key in AsMap(slots)
    ensures Match(slots, key) >= 0 ==> AsMap(slots)[key] == slots[Match(slots, key)].coding
  {
    AsMapSpec(slots);
  }

  lemma HolderOf(slots: seq<Slot>, key: string) returns (i: nat)
    requires Distinct(slots) && key in AsMap(slots)
    ensures i < |slots| && slots[i] == Used(key, AsMap(slots)[key])
  {
    AsMapSpec(slots);
    i :| 0 <= i < |slots| && slots[i].Used? && slots[i].key == key;
  }

  ghost predicate Maps(m: map<string, Coding>, k: string, c: Coding) {
    k in m && m[k] == c
  }

  lemma MapsExactly(slots: seq<Slot>, k: string, c: Coding)
    requires Distinct(slots)
    ensures Maps(AsMap(slots), k, c) <==> Used(k, c) in slots
  {
    AsMapSpec(slots);
    if k in AsMap(slots) {
      var i := HolderOf(slots, k);
    }
  }

  lemma SameMap(m: map<string, Coding>, n: map<string, Coding>)
    requires forall k, c :: Maps(m, k, c) <==> Maps(n, k, c)
    ensures m == n
  {
    forall k | k in m ensures k in n && m[k] == n[k] {
      assert Maps(m, k, m[k]);
    }
    forall k | k in n ensures k in m {
      assert Maps(n, k, n[k]);
    }
  }

  /** Nobody but slot `t` holds the key that is about to be put there. */
  ghost predicate KeyIsFree(slots: seq<Slot>, t: nat, entry: Slot) {
    entry.Used? ==> forall i :: 0 <= i < |slots| && i != t && slots[i].Used? ==> slots[i].key != entry.key
  }

  lemma PairAfter(slots: seq<Slot>, t: nat, entry: Slot, k: string, c: Coding)
    requires t < |slots| && Distinct(slots) && KeyIsFree(slots, t, entry)
    ensures Used(k, c) in slots[t := entry] <==>
            if entry.Used? && entry.key == k then entry.coding == c
            else Used(k, c) in slots && !(slots[t].Used? && slots[t].key == k)
  {
    var after := slots[t := entry];
    assert after[t] == entry && forall i :: 0 <= i < |slots| && i != t ==> after[i] == slots[i];
    if i :| 0 <= i < |slots| && slots[i] == Used(k, c) {
      assert i != t ==> after[i] == Used(k, c);
    }
  }

  /** Overwriting one slot, with a key nobody else has, drops its old key and adds the new one. */
  lemma SetSlot(slots: seq<Slot>, t: nat, entry: Slot)
    requires t < |slots| && Distinct(slots) && KeyIsFree(slots, t, entry)
    ensures Distinct(slots[t := entry])
    ensures var rest := if slots[t].Used? then AsMap(slots) - {slots[t].key} else AsMap(slots);
            AsMap(slots[t := entry]) == if entry.Used? then rest[entry.key := entry.coding] else rest
  {
    var after := slots[t := entry];
    assert Distinct(after);
    var rest := if slots[t].Used? then AsMap(slots) - {slots[t].key} else AsMap(slots);
    var goal := if entry.Used? then rest[entry.key := entry.coding] else rest;
    forall k, c ensures Maps(AsMap(after), k, c) <==> Maps(goal, k, c) {
      MapsExactly(after, k, c);
      MapsExactly(slots, k, c);
      PairAfter(slots, t, entry, k, c);
    }
    SameMap(AsMap(after), goal);
  }

  /** Upsert is map update, except that a new key into a full table first drops slot 0's key. */
  lemma UpsertIsMapUpdate(slots: seq<Slot>, key: string, coding: Coding)
    requires |slots| == 8 && Distinct(slots) && KeysFit(slots) && 1 <= |key| <= 32
    ensures var after := Upserted(slots, key, coding);
            var evicts := Full(slots) && key !in AsMap(slots);
            Distinct(after) && KeysFit(after) && (evicts ==> slots[0].Used?) &&
            AsMap(after) == (if evicts then AsMap(slots) - {slots[0].key} else AsMap(slots))[key := coding]
  {
    var t := Target(slots, key);
    LookupIsMapLookup(slots, key);
    SetSlot(slots, t, Used(key, coding));
    assert Full(slots) <==> FirstFree(slots) < 0;
  }

  lemma DeleteIsMapRemoval(slots: seq<Slot>, key: string)
    requires Distinct(slots) && KeysFit(slots)
    ensures Distinct(Deleted(slots, key)) && KeysFit(Deleted(slots, key))
    ensures AsMap(Deleted(slots, key)) == AsMap(slots) - {key}
  {
    LookupIsMapLookup(slots, key);
    if Match(slots, key) >= 0 {
      SetSlot(slots, Match(slots, key), Free);
    }
  }

  lemma NewKey(slots: seq<Slot>, last: Slot)
    requires Distinct(slots + [last])
    ensures last.Used? ==> last.key !in AsMap(slots)
  {
    var all := slots + [last];
    assert forall i :: 0 <= i < |slots| ==> all[i] == slots[i];
    assert all[|slots|] == last;
    AsMapSpec(slots);
  }

  /** The list shows every entry of the map once. */
  lemma {:induction false} ListShowsTheMap(slots: seq<Slot>)
    requires Distinct(slots)
    ensures |Listed(slots)| == |AsMap(slots)|
    ensures forall it :: it in Listed(slots) <==>
              it.Used? && it.key in AsMap(slots) && AsMap(slots)[it.key] == it.coding
  {
    if |slots| > 0 {
      var n := |slots| - 1;
      ListShowsTheMap(slots[..n]);
      NewKey(slots[..n], slots[n]);
      assert slots == slots[..n] + [slots[n]];
    }
  }

  // ---- Over any history ----

  datatype Op = Put(key: string, coding: Coding) | Drop(key: string)

  function Do(slots: seq<Slot>, op: Op): (r: seq<Slot>)
    requires |slots| == SLOTS
    ensures |r| == SLOTS
  {
    match op
    case Put(k, c) => Upserted(slots, k, c)
    case Drop(k) => Deleted(slots, k)
  }

  function Play(ops: seq<Op>): (slots: seq<Slot>)
    ensures |slots| == SLOTS
  {
    if |ops| == 0 then seq(SLOTS, _ => Free)
    else Do(Play(ops[..|ops| - 1]), ops[|ops| - 1])
  }

  lemma {:induction false} HistoryKeepsKeysDistinct(ops: seq<Op>)
    requires forall i :: 0 <= i < |ops| ==> 1 <= |ops[i].key| <= 32
    ensures Distinct(Play(ops)) && KeysFit(Play(ops))
  {
    if |ops| > 0 {
      var n := |ops| - 1;
      HistoryKeepsKeysDistinct(ops[..n]);
      match ops[n]
      case Put(k, c) => UpsertIsMapUpdate(Play(ops[..n]), k, c);
      case Drop(k) => DeleteIsMapRemoval(Play(ops[..n]), k);
    }
  }

  /** The operations of a history whose writes landed, reported as failed or not. */
  function Landed(ops: seq<Op>, stores: seq<Store>): (r: seq<Op>)
    requires |ops| == |stores|
  {
    if |ops| == 0 then []
    else
      var n := |ops| - 1;
      Landed(ops[..n], stores[..n]) + (if Lands(stores[n]) then [ops[n]] else [])
  }

  /** The table after the first `n` operations. */
  function AfterWrites(ops: seq<Op>, stores: seq<Store>, n: nat): (slots: seq<Slot>)
    requires n <= |ops| == |stores|
    ensures |slots| == SLOTS
  {
    if n == 0 then Play([])
    else if Lands(stores[n - 1]) then Do(AfterWrites(ops, stores, n - 1), ops[n - 1])
    else AfterWrites(ops, stores, n - 1)
  }

  lemma {:induction false} FailuresDropOut(ops: seq<Op>, stores: seq<Store>, n: nat)
    requires n <= |ops| == |stores|
    ensures AfterWrites(ops, stores, n) == Play(Landed(ops[..n], stores[..n]))
  {
    if n > 0 {
      var before := Landed(ops[..n - 1], stores[..n - 1]);
      FailuresDropOut(ops, stores, n - 1);
      assert ops[..n][..n - 1] == ops[..n - 1] && stores[..n][..n - 1] == stores[..n - 1];
      PlayOneMore(before, ops[n - 1]);
      assert before + [] == before;
    }
  }

  method Perform(table: Table, op: Op, store: Store) returns (err: Error)
    requires table.Valid() && op.key != ""
    modifies table.slots
    ensures table.slots[..] == if Lands(store) then Do(old(table.slots[..]), op) else old(table.slots[..])
    ensures err == Ok ==> store.Committed?
  {
    match op
    case Put(k, c) => err := table.Upsert(k, c, store);
    case Drop(k) => err := table.Delete(k, store);
  }

  /** Whatever fails on the way, the table is what the writes that landed make of it. */
  method Run(table: Table, ops: seq<Op>, stores: seq<Store>) returns (errs: seq<Error>)
    requires table.Valid() && table.slots[..] == Play([]) && |ops| == |stores|
    requires forall i :: 0 <= i < |ops| ==> ops[i].key != ""
    modifies table.slots
    ensures table.slots[..] == Play(Landed(ops, stores)) && |errs| == |ops|
    ensures forall i :: 0 <= i < |ops| && errs[i] == Ok ==> stores[i].Committed?
  {
    errs := [];
    for n := 0 to |ops|
      invariant table.slots[..] == AfterWrites(ops, stores, n) && |errs| == n
      invariant forall i :: 0 <= i < n && errs[i] == Ok ==> stores[i].Committed?
    {
      var err := Perform(table, ops[n], stores[n]);
      errs := errs + [err];
    }
    FailuresDropOut(ops, stores, |ops|);
    assert ops[..|ops|] == ops && stores[..|ops|] == stores;
  }

  lemma PlayOneMore(ops: seq<Op>, op: Op)
    ensures Play(ops + [op]) == Do(Play(ops), op)
  {
    assert (ops + [op])[..|ops|] == ops;
  }

  // ---- A plain map, as long as it has room ----

  function PlayMap(ops: seq<Op>): (m: map<string, Coding>) {
    if |ops| == 0 then map[]
    else
      var before, op := PlayMap(ops[..|ops| - 1]), ops[|ops| - 1];
      match op
      case Put(k, c) => before[k := c]
      case Drop(k) => before - {k}
  }

  lemma {:induction false} ListedLength(slots: seq<Slot>)
    ensures |Listed(slots)| <= |slots| && (|Listed(slots)| == |slots| <==> Full(slots))
  {
    if |slots| > 0 {
      var n := |slots| - 1;
      ListedLength(slots[..n]);
      assert Full(slots) <==> Full(slots[..n]) && slots[n].Used? by {
        assert slots == slots[..n] + [slots[n]];
      }
    }
  }

  lemma SizeOfMap(slots: seq<Slot>)
    requires Distinct(slots)
    ensures |AsMap(slots)| <= |slots| && (|AsMap(slots)| == |slots| <==> Full(slots))
  {
    ListShowsTheMap(slots);
    ListedLength(slots);
  }

  lemma SizeAfterPut(m: map<string, Coding>, k: string, c: Coding)
    ensures |m[k := c]| == if k in m then |m| else |m| + 1
  {
    assert m[k := c].Keys == m.Keys + {k};
  }

  /** One upsert is a map update exactly when the map has room for it. */
  lemma PutAgrees(slots: seq<Slot>, k: string, c: Coding)
    requires |slots| == SLOTS && Distinct(slots) && KeysFit(slots) && 1 <= |k| <= 32
    ensures AsMap(Upserted(slots, k, c)) == AsMap(slots)[k := c] <==> |AsMap(slots)[k := c]| <= 8
  {
    UpsertIsMapUpdate(slots, k, c);
    SizeOfMap(slots);
    SizeOfMap(Upserted(slots, k, c));
    SizeAfterPut(AsMap(slots), k, c);
  }

  lemma DropAgrees(slots: seq<Slot>, k: string)
    requires |slots| == SLOTS && Distinct(slots) && KeysFit(slots)
    ensures AsMap(Deleted(slots, k)) == AsMap(slots) - {k} && |AsMap(slots) - {k}| <= 8
  {
    DeleteIsMapRemoval(slots, k);
    SizeOfMap(Deleted(slots, k));
  }

  predicate KeysOk(ops: seq<Op>) {
    forall i :: 0 <= i < |ops| ==> 1 <= |ops[i].key| <= 32
  }

  /** At this and every earlier moment the table is that map. */
  ghost predicate AlwaysThatMap(ops: seq<Op>) {
    AsMap(Play(ops)) == PlayMap(ops) && (|ops| > 0 ==> AlwaysThatMap(ops[..|ops| - 1]))
  }

  /** At this and every earlier moment the map has at most eight keys. */
  ghost predicate AlwaysRoom(ops: seq<Op>) {
    |PlayMap(ops)| <= 8 && (|ops| > 0 ==> AlwaysRoom(ops[..|ops| - 1]))
  }

  /** Over any history the table is a plain map exactly as long as that map never holds a ninth key. */
  lemma {:induction false} PlaysLikeAMapExactly(ops: seq<Op>)
    requires KeysOk(ops)
    ensures AlwaysThatMap(ops) <==> AlwaysRoom(ops)
  {
    if |ops| == 0 {
      NothingUsed(Play(ops));
    } else {
      var init, op := ops[..|ops| - 1], ops[|ops| - 1];
      PlaysLikeAMapExactly(init);
      HistoryKeepsKeysDistinct(init);
      match op
      case Put(k, c) => PutAgrees(Play(init), k, c);
      case Drop(k) => DropAgrees(Play(init), k);
    }
  }

  lemma {:induction false} NothingUsed(slots: seq<Slot>)
    requires forall i :: 0 <= i < |slots| ==> slots[i].Free?
    ensures AsMap(slots) == map[]
  {
    if |slots| > 0 {
      NothingUsed(slots[..|slots| - 1]);
    }
  }

  // ---- Keys that do not fit ----

  /** What was stored is found again exactly when its key fits. */
  lemma StoredIsFoundIffKeyFits(slots: seq<Slot>, key: string, coding: Coding)
    requires |slots| == SLOTS && KeysFit(slots) && |key| >= 1
    ensures Match(Upserted(slots, key, coding), key) >= 0 <==> |key| <= 32
  {
    var after := Upserted(slots, key, coding);
    if |key| <= 32 {
      assert after[Target(slots, key)] == Used(key, coding);
    }
  }

  /** A longer key keeps the table free of duplicates exactly when no other slot holds its first 32 characters. */
  lemma LongKeyDuplicates(slots: seq<Slot>, key: string, coding: Coding)
    requires |slots| == SLOTS && Distinct(slots) && |key| > 32
    ensures Distinct(Upserted(slots, key, coding)) <==>
            forall i :: 0 <= i < 8 && i != Target(slots, key) && slots[i].Used? ==> slots[i].key != key[..32]
  {
    var after, t := Upserted(slots, key, coding), Target(slots, key);
    assert after[t].key == key[..32];
    forall i | 0 <= i < SLOTS && i != t && slots[i].Used? && slots[i].key == key[..32]
      ensures !Distinct(after)
    {
      assert after[i] == slots[i];
      assert i < t || t < i;
    }
  }

  /** Saving one device with a 33-character key twice occupies two slots. */
  lemma SameLongKeyTwice(key: string, coding: Coding)
    requires |key| == 33
    ensures var slots := Play([Put(key, coding), Put(key, coding)]);
            slots[0] == slots[1] == Used(key[..32], coding)
  {
    var ops := [Put(key, coding), Put(key, coding)];
    assert ops[..1] == [Put(key, coding)] && ops[..1][..0] == [];
    var none := Play(ops[..1][..0]);
    assert none[0].Free?;
    assert Match(none, key) < 0 && FirstFree(none) == 0;
    var one := Play(ops[..1]);
    assert one == none[0 := Used(key[..32], coding)];
    assert one[0].Used? && one[1].Free?;
    assert Match(one, key) < 0 && FirstFree(one) == 1;
  }
}
