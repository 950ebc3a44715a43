/**
 Reading a compressed domain name (section 4.1.4 of RFC 1035) into the four fields the mDNS code
 keeps.  `Spell` is what the packet says; `AddItem` is the effect of one label; `ReadFqdn` is the
 source's loop with its recursion, in-place name structure and label buffer.
 */
module DnsName {
  import opened Bytes

  type Str = seq<byte>  // content of a C string

  const NAME_MAX := 64
  const NAME_BUF := NAME_MAX + 1
  const COMPRESSED := 0xC0
  const LABEL_MAX := 63

  const LOCAL: Str := [0x6C, 0x6F, 0x63, 0x61, 0x6C]
  const ARPA: Str := [0x61, 0x72, 0x70, 0x61]
  const IP6: Str := [0x69, 0x70, 0x36]
  const IN_ADDR: Str := [0x69, 0x6E, 0x2D, 0x61, 0x64, 0x64, 0x72]
  const SUB: Str := [0x5F, 0x73, 0x75, 0x62]
  const UNDERSCORE: byte := 0x5F
  const DOT: byte := 0x2E

  // ---- C strings ----

  function CStr(s: seq<byte>): (c: Str)
    ensures |c| <= |s|
  {
    if |s| == 0 || s[0] == 0 then [] else [s[0]] + CStr(s[1..])
  }

  lemma {:induction false} CStrOfText(s: seq<byte>)
    requires 0 !in s
    ensures CStr(s) == s
  {
    if |s| > 0 {
      CStrOfText(s[1..]);
    }
  }

  function Lower(b: byte): (r: byte) {
    if 0x41 <= b <= 0x5A then b + 0x20 else b
  }

  predicate EqNoCase(a: Str, b: Str) {
    |a| == |b| && forall i :: 0 <= i < |a| ==> Lower(a[i]) == Lower(b[i])
  }

  /** strlcat into a field of NAME_BUF bytes. */
  function StrCat(dst: Str, src: Str): (r: Str)
    ensures |dst| <= NAME_MAX ==> |r| <= NAME_MAX
  {
    if |dst| >= NAME_MAX then dst else (dst + src)[..Min(NAME_MAX, |dst| + |src|)]
  }

  // ---- Name fields, and the effect of one label ----

  /** `slots` are host, service, proto and domain, in the order of the structure. */
  datatype Name = Name(parts: nat, sub: bool, invalid: bool, slots: seq<Str>)

  const EMPTY := Name(0, false, false, [[], [], [], []])

  ghost predicate Proper(n: Name) {
    n.parts <= 4 && |n.slots| == 4 && forall i :: 0 <= i < 4 ==> |n.slots[i]| <= 64
  }

  /** A label, or a length byte that contributes no label: a pointer or a malformed length. */
  datatype Item = Label(bytes: seq<byte>) | Mark

  /** A second label that is no service label and no known top-level name belongs to the host. */
  predicate ExtendsHost(s: seq<byte>) {
    && |s| > 0 && s[0] != UNDERSCORE
    && !EqNoCase(CStr(s), LOCAL) && !EqNoCase(CStr(s), ARPA)
    && !EqNoCase(CStr(s), IP6) && !EqNoCase(CStr(s), IN_ADDR)
  }

  function AddItem(n: Name, it: Item): (r: Name)
    requires |n.slots| == 4 && n.parts <= 4
    ensures |r.slots| == 4 && r.parts <= 4
  {
    var m := if n.parts == 4 then n.(invalid := true) else n;
    match it
    case Mark => m
    case Label(s) =>
      if m.parts == 1 && ExtendsHost(s) then
        m.(slots := m.slots[0 := StrCat(StrCat(m.slots[0], [DOT]), CStr(s))])
      else if EqNoCase(CStr(s), SUB) then m.(sub := true)
      else if !m.invalid then m.(slots := m.slots[m.parts := CStr(s)], parts := m.parts + 1)
      else m
  }

  function Fold(n: Name, items: seq<Item>): (r: Name)
    requires |n.slots| == 4 && n.parts <= 4
    ensures |r.slots| == 4 && r.parts <= 4
    decreases |items|
  {
    if |items| == 0 then n else Fold(AddItem(n, items[0]), items[1..])
  }

  // ---- What the packet spells ----

  datatype Reading = Reading(items: seq<Item>, next: Option<nat>)

  function Address(hi: byte, lo: byte): (a: nat)
    requires hi >= COMPRESSED
  {
    (hi - COMPRESSED) * 256 + lo
  }

  /** Every pointer must lead to a place strictly before the start of the current segment. */
  function Spell(packet: seq<byte>, start: nat, index: nat): (r: Reading)
    decreases start, |packet| - index
  {
    if index >= |packet| || packet[index] == 0 then Reading([], Some(index + 1))
    else
      var len := packet[index];
      if len > LABEL_MAX && len < COMPRESSED then Reading([Mark], None)
      else if len < COMPRESSED then
        if index + 1 + len > |packet| then Reading([Mark], None)
        else
          var rest := Spell(packet, start, index + 1 + len);
          Reading([Label(packet[index + 1..index + 1 + len])] + rest.items, rest.next)
      else if index + 1 >= |packet| || Address(len, packet[index + 1]) >= start then Reading([Mark], None)
      else
        var target := Address(len, packet[index + 1]);
        var rest := Spell(packet, target, target);
        Reading([Mark] + rest.items, if rest.next.Some? then Some(index + 2) else None)
  }

  class MdnsName {
    var parts: nat
    var sub: bool
    var invalid: bool
    const slots: array<Str>

    ghost predicate Valid()
      reads this, slots
    {
      slots.Length == 4 && parts <= 4
    }

    ghost function View(): (n: Name)
      reads this, slots
    {
      Name(parts, sub, invalid, slots[..])
    }

    constructor ()
      ensures Valid() && View() == EMPTY && fresh(slots)
    {
      parts, sub, invalid := 0, false, false;
      slots := new Str[4](_ => []);
    }

    method Clear()
      requires Valid()
      modifies this, slots
      ensures Valid() && View() == EMPTY
    {
      parts, sub, invalid := 0, false, false;
      slots[0], slots[1], slots[2], slots[3] := [], [], [], [];
    }

    /** The per-length-byte part of the loop. */
    method NoteLength()
      requires Valid()
      modifies this`invalid
      ensures Valid() && View() == AddItem(old(View()), Mark)
    {
      if parts == 4 {
        invalid := true;
      }
    }

    /** `buf[..len]` holds a label; the length byte was noted before. */
    method TakeLabel(buf: array<byte>, len: nat)
      requires Valid() && 1 <= len <= LABEL_MAX && buf.Length == NAME_BUF && (parts == 4 ==> invalid)
      modifies this, slots
      ensures Valid() && View() == AddItem(old(View()), Label(buf[..len]))
    {
      var piece := buf[..len];
      var text := CStr(piece);
      if parts == 1 && ExtendsHost(piece) {
        slots[0] := StrCat(slots[0], [DOT]);
        slots[0] := StrCat(slots[0], text);
      } else if EqNoCase(text, SUB) {
        sub := true;
      } else if !invalid {
        slots[parts] := text;
        parts := parts + 1;
      }
    }
  }

  method CopyLabel(packet: seq<byte>, at: nat, len: nat, buf: array<byte>) returns (whole: bool)
    requires len < buf.Length && at <= |packet|
    modifies buf
    ensures whole <==> at + len <= |packet|
    ensures whole ==> buf[..len] == packet[at..at + len]
  {
    var i := 0;
    while i < len
      invariant 0 <= i <= len && at + i <= |packet|
      invariant buf[..i] == packet[at..at + i]
    {
      if at + i >= |packet| {
        return false;
      }
      buf[i] := packet[at + i];
      i := i + 1;
    }
    whole := true;
  }

  /** Copies one label and puts it into the name; its length byte was noted before. */
  method ReadLabel(packet: seq<byte>, at: nat, len: nat, name: MdnsName, buf: array<byte>) returns (whole: bool)
    requires name.Valid() && buf.Length == NAME_BUF && at <= |packet| && 1 <= len <= LABEL_MAX
    requires name.parts == 4 ==> name.invalid
    modifies name, name.slots, buf
    ensures name.Valid() && (whole <==> at + len <= |packet|)
    ensures name.View() == if whole then AddItem(old(name.View()), Label(packet[at..at + len])) else old(name.View())
  {
    whole := CopyLabel(packet, at, len, buf);
    if whole {
      name.TakeLabel(buf, len);
    }
  }

  /** What the fold makes of the next length byte, by its kind. */
  lemma FoldLabel(n: Name, packet: seq<byte>, start: nat, index: nat)
    requires |n.slots| == 4 && n.parts <= 4
    requires index < |packet| && 1 <= packet[index] <= LABEL_MAX && index + 1 + packet[index] <= |packet|
    ensures var next := index + 1 + packet[index]; var it := Label(packet[index + 1..next]);
            && AddItem(AddItem(n, Mark), it) == AddItem(n, it)
            && Fold(n, Spell(packet, start, index).items) == Fold(AddItem(n, it), Spell(packet, start, next).items)
            && Spell(packet, start, index).next == Spell(packet, start, next).next
  {
    var next := index + 1 + packet[index];
    FoldCons(n, Label(packet[index + 1..next]), Spell(packet, start, next).items);
  }

  lemma FoldPointer(n: Name, packet: seq<byte>, start: nat, index: nat)
    requires |n.slots| == 4 && n.parts <= 4
    requires index + 1 < |packet| && packet[index] >= COMPRESSED
    requires Address(packet[index], packet[index + 1]) < start
    ensures var target := Address(packet[index], packet[index + 1]);
            var far := Spell(packet, target, target);
            && Fold(n, Spell(packet, start, index).items) == Fold(AddItem(n, Mark), far.items)
            && Spell(packet, start, index).next == if far.next.Some? then Some(index + 2) else None
  {
    var target := Address(packet[index], packet[index + 1]);
    FoldCons(n, Mark, Spell(packet, target, target).items);
  }

  lemma FoldMark(n: Name, packet: seq<byte>, start: nat, index: nat)
    requires |n.slots| == 4 && n.parts <= 4 && index < |packet|
    requires Spell(packet, start, index) == Reading([Mark], None)
    ensures Fold(n, Spell(packet, start, index).items) == AddItem(n, Mark)
  {
    FoldCons(n, Mark, []);
  }

  lemma FoldCons(n: Name, first: Item, rest: seq<Item>)
    requires |n.slots| == 4 && n.parts <= 4
    ensures Fold(n, [first] + rest) == Fold(AddItem(n, first), rest)
  {
    assert ([first] + rest)[1..] == rest;
  }

  /** What one turn of the loop comes to: a malformed place, a label read, or a pointer to follow. */
  datatype Turn = Bad | Further(index: nat) | Jump(address: nat)

  method TakeTurn(packet: seq<byte>, start: nat, index: nat, name: MdnsName, buf: array<byte>) returns (t: Turn)
    requires name.Valid() && buf.Length == NAME_BUF && index < |packet| && packet[index] != 0
    modifies name, name.slots, buf
    ensures name.Valid()
    ensures t.Bad? ==>
              && Spell(packet, start, index).next == None
              && name.View() == Fold(old(name.View()), Spell(packet, start, index).items)
    ensures t.Further? ==>
              && index < t.index <= |packet| && Spell(packet, start, t.index).next == Spell(packet, start, index).next
              && Fold(name.View(), Spell(packet, start, t.index).items)
              == Fold(old(name.View()), Spell(packet, start, index).items)
    ensures t.Jump? ==>
              && t.address < start
              && var far := Spell(packet, t.address, t.address);
                 && Spell(packet, start, index).next == (if far.next.Some? then Some(index + 2) else None)
                 && Fold(name.View(), far.items) == Fold(old(name.View()), Spell(packet, start, index).items)
  {
    ghost var before := name.View();
    name.NoteLength();
    var len := packet[index];
    if len < COMPRESSED {
      if len > LABEL_MAX {
        FoldMark(before, packet, start, index);
        return Bad;
      }
      var whole := ReadLabel(packet, index + 1, len, name, buf);
      if !whole {
        FoldMark(before, packet, start, index);
        return Bad;
      }
      FoldLabel(before, packet, start, index);
      t := Further(index + 1 + len);
    } else {
      if index + 1 >= |packet| || Address(len, packet[index + 1]) >= start {
        FoldMark(before, packet, start, index);
        return Bad;
      }
      FoldPointer(before, packet, start, index);
      t := Jump(Address(len, packet[index + 1]));
    }
  }

  /** Reads only inside the packet, ends on every packet, and does to `name` what the spelled items do. */
  method ReadFqdn(packet: seq<byte>, start: nat, name: MdnsName, buf: array<byte>) returns (next: Option<nat>)
    requires name.Valid() && buf.Length == NAME_BUF
    modifies name, name.slots, buf
    ensures name.Valid()
    ensures next == Spell(packet, start, start).next
    ensures name.View() == Fold(old(name.View()), Spell(packet, start, start).items)
    decreases start
  {
    var index := start;
    ghost var end, total := Spell(packet, start, start).next, Fold(name.View(), Spell(packet, start, start).items);
    while index < |packet| && packet[index] != 0
      invariant name.Valid() && start <= index
      invariant Fold(name.View(), Spell(packet, start, index).items) == total
      invariant Spell(packet, start, index).next == end
      decreases |packet| - index
    {
      var t := TakeTurn(packet, start, index, name, buf);
      match t {
        case Bad =>
          return None;
        case Further(i) =>
          index := i;
        case Jump(address) =>
          next := ReadFqdn(packet, address, name, buf);
          return if next.Some? then Some(index + 2) else None;
      }
    }
    next := Some(index + 1);
  }

  // ---- From the raw labels to the name ----

  predicate KnownTop(domain: Str) {
    EqNoCase(domain, LOCAL) || EqNoCase(domain, ARPA)
  }

  /** A service name has no instance in front, a host name has nothing but host and top level. */
  function Settle(n: Name): (r: Name)
    requires |n.slots| == 4
  {
    if n.parts == 0 || n.invalid then n
    else
      var m := if n.parts == 3 then n.(slots := [[], n.slots[0], n.slots[1], n.slots[2]])
               else if n.parts == 2 then n.(slots := [n.slots[0], [], [], n.slots[1]])
               else n;
      m.(invalid := !KnownTop(m.slots[3]))
  }

  method ParseFqdn(packet: seq<byte>, start: nat, name: MdnsName) returns (next: Option<nat>)
    requires name.Valid()
    modifies name, name.slots
    ensures name.Valid()
    ensures next == Spell(packet, start, start).next
    ensures next.Some? ==> name.View() == Settle(Fold(EMPTY, Spell(packet, start, start).items))
  {
    name.Clear();
    var buf := new byte[NAME_BUF];
    next := ReadFqdn(packet, start, name, buf);
    if next == None || name.parts == 0 || name.invalid {
      return;
    }
    Rearrange(name);
  }

  method Rearrange(name: MdnsName)
    requires name.Valid() && name.parts > 0 && !name.invalid
    modifies name, name.slots
    ensures name.Valid() && name.View() == Settle(old(name.View()))
  {
    var s := name.slots;
    if name.parts == 3 {
      s[1], s[2], s[3] := s[0], s[1], s[2];
      s[0] := [];
    } else if name.parts == 2 {
      s[3] := s[1];
      s[1], s[2] := [], [];
    }
    if !KnownTop(s[3]) {
      name.invalid := true;
    }
  }

  // ---- Properties of the reading ----

  /** Four parts at most, and no field ever outgrows its buffer. */
  lemma {:induction false} FieldsFit(n: Name, items: seq<Item>)
    requires Proper(n)
    requires forall i :: 0 <= i < |items| && items[i].Label? ==> |items[i].bytes| <= LABEL_MAX
    ensures Proper(Fold(n, items))
    decreases |items|
  {
    if |items| > 0 {
      FieldsFit(AddItem(n, items[0]), items[1..]);
    }
  }

  /** The segment runs into the end of the packet without a zero byte or a pointer. */
  predicate RunsOff(packet: seq<byte>, index: nat)
    decreases |packet| - index
  {
    if index >= |packet| then true
    else if packet[index] == 0 || packet[index] > LABEL_MAX then false
    else RunsOff(packet, index + 1 + packet[index])
  }

  /**
   Spelled labels are 1 to 63 bytes; the end is past the start, and outside the packet exactly when the
   first segment runs off.
   */
  lemma {:induction false} SpellBounds(packet: seq<byte>, start: nat, index: nat)
    requires start <= index <= |packet|
    ensures var r := Spell(packet, start, index);
            (forall i :: 0 <= i < |r.items| && r.items[i].Label? ==> 1 <= |r.items[i].bytes| <= 63) &&
            (r.next.Some? ==> index < r.next.value <= |packet| + 1 &&
                              (r.next.value == |packet| + 1 <==> RunsOff(packet, index)))
    decreases start, |packet| - index
  {
    if index < |packet| && packet[index] != 0 {
      var len := packet[index];
      if len <= LABEL_MAX {
        if index + 1 + len <= |packet| {
          SpellBounds(packet, start, index + 1 + len);
        }
      } else if len >= COMPRESSED && index + 1 < |packet| && Address(len, packet[index + 1]) < start {
        var target := Address(len, packet[index + 1]);
        SpellBounds(packet, target, target);
      }
    }
  }

  /**
   The chain of labels and pointers comes to its end: at a zero byte, or, if `off`, at the end of the
   packet without one.
   */
  predicate ChainEnds(packet: seq<byte>, start: nat, index: nat, off: bool)
    decreases start, |packet| - index
  {
    if index >= |packet| then off
    else
      var len: int := packet[index];
      if len == 0 then !off
      else if len <= 63 then index + 1 + len <= |packet| && ChainEnds(packet, start, index + 1 + len, off)
      else if len < 0xC0 || index + 1 >= |packet| then false
      else
        var target := (len - 0xC0) * 256 + packet[index + 1];
        target < start && ChainEnds(packet, target, target, off)
  }

  /** Where the segment that begins here has its pointer, if it has one. */
  function PointerAt(packet: seq<byte>, index: nat): (p: Option<nat>)
    decreases |packet| - index
  {
    if index >= |packet| || packet[index] == 0 then None
    else if packet[index] > LABEL_MAX then Some(index)
    else PointerAt(packet, index + 1 + packet[index])
  }

  /**
   A name is accepted exactly when its chain comes to an end, terminated or not; so it is accepted
   without a terminator exactly when the chain's last segment runs off the packet.  The reported end is
   the one of the first segment: behind its pointer, else behind its zero byte, else one past the packet.
   */
  lemma {:induction false} AcceptedExactly(packet: seq<byte>, start: nat, index: nat)
    requires start <= index <= |packet|
    ensures Spell(packet, start, index).next.Some? <==>
            ChainEnds(packet, start, index, false) || ChainEnds(packet, start, index, true)
    ensures !(ChainEnds(packet, start, index, false) && ChainEnds(packet, start, index, true))
    ensures var r := Spell(packet, start, index);
            r.next.Some? ==>
              match PointerAt(packet, index)
              case Some(p) => r.next.value == p + 2 <= |packet|
              case None =>
                if ChainEnds(packet, start, index, true) then r.next.value == |packet| + 1
                else r.next.value <= |packet| && r.next.value > 0 && packet[r.next.value - 1] == 0
    decreases start, |packet| - index
  {
    if index < |packet| && packet[index] != 0 {
      var len := packet[index];
      if len <= LABEL_MAX {
        if index + 1 + len <= |packet| {
          AcceptedExactly(packet, start, index + 1 + len);
        }
      } else if len >= COMPRESSED && index + 1 < |packet| && Address(len, packet[index + 1]) < start {
        var target := Address(len, packet[index + 1]);
        AcceptedExactly(packet, target, target);
      }
    }
  }

  /** A pointer may lead to a name that runs off: accepted, though its own segment does not run off. */
  lemma TruncatedTargetIsAccepted()
    ensures var p := [3, 0x61, COMPRESSED, 0x00];
            && Spell(p, 2, 2) == Reading([Mark, Label([0x61, COMPRESSED, 0x00])], Some(4))
            && !RunsOff(p, 2) && RunsOff(p, 0) && ChainEnds(p, 2, 2, true)
  {
    var p := [3, 0x61, COMPRESSED, 0x00];
    assert p[1..4] == [0x61, COMPRESSED, 0x00];
    assert Spell(p, 0, 4) == Reading([], Some(5)) && ChainEnds(p, 0, 4, true) && RunsOff(p, 4);
    assert Spell(p, 0, 0) == Reading([Label([0x61, COMPRESSED, 0x00])], Some(5)) && ChainEnds(p, 0, 0, true);
    assert Address(p[2], p[3]) == 0;
  }

  /** A truncated name is accepted, and the reported end lies behind the packet. */
  lemma TruncatedNameIsAccepted()
    ensures Spell([1, 0x61], 0, 0) == Reading([Label([0x61])], Some(3))
  {
    assert [1, 0x61][1..2] == [0x61];
    assert Spell([1, 0x61], 0, 2) == Reading([], Some(3));
  }

  // ---- Writing names, and reading them back ----

  predicate Writable(labels: seq<seq<byte>>) {
    forall i :: 0 <= i < |labels| ==> 1 <= |labels[i]| <= 63
  }

  function Write(labels: seq<seq<byte>>): (r: seq<byte>)
    requires Writable(labels)
  {
    if |labels| == 0 then [] else [|labels[0]|] + labels[0] + Write(labels[1..])
  }

  function Labels(labels: seq<seq<byte>>): (items: seq<Item>) {
    if |labels| == 0 then [] else [Label(labels[0])] + Labels(labels[1..])
  }

  ghost predicate WrittenAt(packet: seq<byte>, at: nat, labels: seq<seq<byte>>)
    requires Writable(labels)
  {
    at + |Write(labels)| <= |packet| && packet[at..at + |Write(labels)|] == Write(labels)
  }

  lemma FirstLabelAt(packet: seq<byte>, at: nat, labels: seq<seq<byte>>)
    requires Writable(labels) && |labels| > 0 && WrittenAt(packet, at, labels)
    ensures var n := |labels[0]|;
            at + 1 + n <= |packet| && packet[at] == n && packet[at + 1..at + 1 + n] == labels[0] &&
            WrittenAt(packet, at + 1 + n, labels[1..])
  {
    var n, w := |labels[0]|, Write(labels);
    assert w == [n] + labels[0] + Write(labels[1..]);
    SplitWindow(packet, at, [n], labels[0] + Write(labels[1..]));
    SplitWindow(packet, at + 1, labels[0], Write(labels[1..]));
    assert w == [n] + (labels[0] + Write(labels[1..]));
    assert packet[at..at + 1][0] == packet[at];
  }

  /** A window that shows two strings shows each of them. */
  lemma SplitWindow(packet: seq<byte>, at: nat, a: seq<byte>, b: seq<byte>)
    requires at + |a| + |b| <= |packet| && packet[at..at + |a| + |b|] == a + b
    ensures packet[at..at + |a|] == a && packet[at + |a|..at + |a| + |b|] == b
  {
    var w := packet[at..at + |a| + |b|];
    assert w[..|a|] == packet[at..at + |a|] && w[|a|..] == packet[at + |a|..at + |a| + |b|];
  }

  /** What follows the written labels continues the spelling: a zero byte, a pointer, or more labels. */
  lemma {:induction false} SpellWritten(packet: seq<byte>, at: nat, labels: seq<seq<byte>>, start: nat)
    requires Writable(labels) && WrittenAt(packet, at, labels)
    ensures var rest := Spell(packet, start, at + |Write(labels)|);
            Spell(packet, start, at).items == Labels(labels) + rest.items &&
            Spell(packet, start, at).next == rest.next
    decreases |labels|
  {
    if |labels| > 0 {
      var next, end := at + 1 + |labels[0]|, at + |Write(labels)|;
      SpellFirstWritten(packet, at, labels, start);
      SpellWritten(packet, next, labels[1..], start);
      Regroup([Label(labels[0])], Labels(labels[1..]), Spell(packet, start, end).items);
    } else {
      assert Labels(labels) + Spell(packet, start, at).items == Spell(packet, start, at).items;
    }
  }

  lemma SpellFirstWritten(packet: seq<byte>, at: nat, labels: seq<seq<byte>>, start: nat)
    requires Writable(labels) && |labels| > 0 && WrittenAt(packet, at, labels)
    ensures var next := at + 1 + |labels[0]|;
            && WrittenAt(packet, next, labels[1..]) && next + |Write(labels[1..])| == at + |Write(labels)|
            && Spell(packet, start, at).items == [Label(labels[0])] + Spell(packet, start, next).items
            && Spell(packet, start, at).next == Spell(packet, start, next).next
  {
    FirstLabelAt(packet, at, labels);
    SpellOneLabel(packet, start, at);
  }

  lemma SpellOneLabel(packet: seq<byte>, start: nat, at: nat)
    requires at < |packet| && 1 <= packet[at] <= LABEL_MAX && at + 1 + packet[at] <= |packet|
    ensures var next := at + 1 + packet[at];
            Spell(packet, start, at).items == [Label(packet[at + 1..next])] + Spell(packet, start, next).items &&
            Spell(packet, start, at).next == Spell(packet, start, next).next
  {
  }

  /** A plainly written name reads back as its labels, and the reading ends right behind it. */
  lemma PlainNameReadsBack(packet: seq<byte>, at: nat, labels: seq<seq<byte>>)
    requires Writable(labels) && WrittenAt(packet, at, labels)
    requires var end := at + |Write(labels)|; end < |packet| && packet[end] == 0
    ensures Spell(packet, at, at).items == Labels(labels)
    ensures Spell(packet, at, at).next == Some(at + |Write(labels)| + 1)
  {
    SpellWritten(packet, at, labels, at);
  }

  /** A name whose tail is a pointer to an earlier name spells its own labels, the pointer, and that name. */
  lemma CompressedNameReadsBack(packet: seq<byte>, at: nat, labels: seq<seq<byte>>, target: nat)
    requires Writable(labels) && WrittenAt(packet, at, labels) && target < at
    requires var end := at + |Write(labels)|;
             end + 1 < |packet| && packet[end] == 0xC0 + target / 256 && packet[end + 1] == target % 256
    ensures var far := Spell(packet, target, target);
            Spell(packet, at, at).items == Labels(labels) + ([Mark] + far.items) &&
            Spell(packet, at, at).next == (if far.next.Some? then Some(at + |Write(labels)| + 2) else None)
  {
    var end := at + |Write(labels)|;
    AddressReadsBack(packet[end], packet[end + 1], target);
    SpellWritten(packet, at, labels, at);
  }

  /** The two bytes of a pointer give back the place they were made from. */
  lemma AddressReadsBack(hi: byte, lo: byte, target: nat)
    requires hi == 0xC0 + target / 256 && lo == target % 256
    ensures hi >= COMPRESSED && Address(hi, lo) == target
  {
  }

  /** What may stand behind the labels of an accepted name. */
  predicate Closed(packet: seq<byte>, start: nat, end: nat) {
    || end >= |packet|
    || packet[end] == 0
    || (packet[end] >= COMPRESSED && end + 1 < |packet| && Address(packet[end], packet[end + 1]) < start
        && Spell(packet, Address(packet[end], packet[end + 1]), Address(packet[end], packet[end + 1])).next.Some?)
  }

  /**
   Conversely, whatever is accepted was written so: labels, and behind them a zero byte, the end of the
   packet, or a pointer before the segment's start to a name that is itself accepted.
   */
  lemma {:induction false} AcceptedIsWritten(packet: seq<byte>, start: nat, index: nat)
    returns (labels: seq<seq<byte>>)
    requires index <= |packet| && Spell(packet, start, index).next.Some?
    ensures Writable(labels) && WrittenAt(packet, index, labels)
    ensures Closed(packet, start, index + |Write(labels)|)
    decreases |packet| - index
  {
    if index < |packet| && 1 <= packet[index] <= LABEL_MAX {
      SpellOneLabel(packet, start, index);
      var rest := AcceptedIsWritten(packet, start, index + 1 + packet[index]);
      labels := WrittenBefore(packet, index, rest);
    } else {
      labels := [];
    }
  }

  lemma WrittenBefore(packet: seq<byte>, at: nat, rest: seq<seq<byte>>) returns (labels: seq<seq<byte>>)
    requires at < |packet| && 1 <= packet[at] <= LABEL_MAX && at + 1 + packet[at] <= |packet|
    requires Writable(rest) && WrittenAt(packet, at + 1 + packet[at], rest)
    ensures Writable(labels) && WrittenAt(packet, at, labels)
    ensures at + |Write(labels)| == at + 1 + packet[at] + |Write(rest)|
  {
    var first := packet[at + 1..at + 1 + packet[at]];
    labels := [first] + rest;
    WriteFirst(first, rest);
    JoinWindow(packet, at, first, Write(rest));
  }

  lemma WriteFirst(first: seq<byte>, rest: seq<seq<byte>>)
    requires 1 <= |first| <= LABEL_MAX && Writable(rest)
    ensures Writable([first] + rest) && Write([first] + rest) == [|first|] + first + Write(rest)
  {
    assert ([first] + rest)[1..] == rest;
  }

  lemma JoinWindow(packet: seq<byte>, at: nat, first: seq<byte>, rest: seq<byte>)
    requires at + 1 + |first| + |rest| <= |packet| && packet[at] == |first|
    requires packet[at + 1..at + 1 + |first|] == first
    requires packet[at + 1 + |first|..at + 1 + |first| + |rest|] == rest
    ensures var all := [packet[at]] + first + rest; packet[at..at + |all|] == all
  {
  }

  // ---- Compression does not change the name, with one exception ----

  function WithoutMarks(items: seq<Item>): (r: seq<Item>) {
    if |items| == 0 then []
    else if items[0].Mark? then WithoutMarks(items[1..])
    else [items[0]] + WithoutMarks(items[1..])
  }

  /** No pointer is met with four parts filled. */
  predicate MarksHarmless(n: Name, items: seq<Item>)
    requires |n.slots| == 4 && n.parts <= 4
    decreases |items|
  {
    |items| == 0 || ((items[0].Mark? ==> n.parts < 4) && MarksHarmless(AddItem(n, items[0]), items[1..]))
  }

  /**
   Pointers leave every field as the uncompressed name would, except that a pointer met with four
   parts filled marks the name invalid, as a fifth label would.
   */
  lemma {:induction false} CompressionIsInvisible(n: Name, items: seq<Item>)
    requires |n.slots| == 4 && n.parts <= 4
    ensures var packed, plain := Fold(n, items), Fold(n, WithoutMarks(items));
            packed == plain.(invalid := plain.invalid || !MarksHarmless(n, items))
    decreases |items|
  {
    if |items| > 0 {
      var m := AddItem(n, items[0]);
      CompressionIsInvisible(m, items[1..]);
      if items[0].Mark? {
        if n.parts == 4 {
          InvalidIsJustAFlag(n, WithoutMarks(items[1..]));
        }
      } else {
        assert WithoutMarks(items)[1..] == WithoutMarks(items[1..]);
      }
    }
  }

  lemma {:induction false} InvalidIsJustAFlag(n: Name, items: seq<Item>)
    requires |n.slots| == 4 && n.parts == 4
    ensures Fold(n.(invalid := true), items) == Fold(n, items).(invalid := true)
    ensures Fold(n, items).parts == 4
    decreases |items|
  {
    if |items| > 0 {
      var m, k := AddItem(n, items[0]), AddItem(n.(invalid := true), items[0]);
      assert k == m.(invalid := true);
      InvalidIsJustAFlag(m, items[1..]);
    }
  }

  // ---- Where a label goes, and which names are refused ----

  function LowerCased(s: Str): (r: Str) {
    seq(|s|, i requires 0 <= i < |s| => if 'A' as int <= s[i] <= 'Z' as int then s[i] + 32 else s[i])
  }

  lemma EqualInLowerCase(s: Str, known: Str)
    requires forall i :: 0 <= i < |known| ==> !('A' as int <= known[i] <= 'Z' as int)
    ensures EqNoCase(s, known) <==> LowerCased(s) == known
  {
    if LowerCased(s) == known {
      forall i | 0 <= i < |s| ensures Lower(s[i]) == Lower(known[i]) {
        assert LowerCased(s)[i] == known[i];
      }
    }
  }

  /**
   A name of one to four parts is refused exactly when it was already, or when its top level is neither
   "local" nor "arpa" in any mix of cases; a name of one part has no top level.  Neither a name that was
   refused nor one without parts is touched.
   */
  lemma RefusedExactlyOutsideLocalAndArpa(n: Name)
    requires |n.slots| == 4 && n.parts <= 4
    ensures n.invalid || n.parts == 0 ==> Settle(n) == n
    ensures var top := LowerCased(n.slots[if n.parts == 2 then 1 else if n.parts == 3 then 2 else 3]);
            Settle(n).invalid <==>
            n.invalid || (n.parts > 0 && top != Ascii("local") && top != Ascii("arpa"))
  {
    assert LOCAL == Ascii("local") && ARPA == Ascii("arpa");
    var top := n.slots[if n.parts == 2 then 1 else if n.parts == 3 then 2 else 3];
    EqualInLowerCase(top, LOCAL);
    EqualInLowerCase(top, ARPA);
  }

  /** The second label is no service label and none of "local", "arpa", "ip6" and "in-addr". */
  predicate MoreHost(s: seq<byte>) {
    var text := LowerCased(CStr(s));
    && |s| > 0 && s[0] != '_' as int && text != Ascii("local") && text != Ascii("arpa")
    && text != Ascii("ip6") && text != Ascii("in-addr")
  }

  /**
   A second label may lengthen the host, behind a dot and up to 64 characters; else "_sub" is only noted;
   else the label is the next of four fields; a fifth is refused and changes no field.
   */
  lemma WhereALabelGoes(n: Name, s: seq<byte>)
    requires Proper(n) && |s| > 0
    ensures var r := AddItem(n, Label(s));
            var host := n.slots[0] + [0x2E] + CStr(s);
            var fits := n.parts < 4 && !n.invalid;
            if n.parts == 1 && MoreHost(s) then
              r == n.(slots := n.slots[0 := host[..Min(64, |host|)]])
            else if LowerCased(CStr(s)) == Ascii("_sub") then
              r == n.(sub := true, invalid := n.invalid || n.parts == 4)
            else if fits then r == n.(parts := n.parts + 1, slots := n.slots[n.parts := CStr(s)])
            else r == n.(invalid := true)
  {
    var text := CStr(s);
    assert LOCAL == Ascii("local") && ARPA == Ascii("arpa") && IP6 == Ascii("ip6");
    assert IN_ADDR == Ascii("in-addr") && SUB == Ascii("_sub");
    EqualInLowerCase(text, LOCAL);
    EqualInLowerCase(text, ARPA);
    EqualInLowerCase(text, IP6);
    EqualInLowerCase(text, IN_ADDR);
    EqualInLowerCase(text, SUB);
    StrCatOfCut(n.slots[0], [DOT]);
    StrCatOfCut(n.slots[0] + [DOT], text);
  }

  // ---- What the four kinds of names turn into ----

  predicate ServiceLabel(s: seq<byte>) {
    |s| > 0 && s[0] == UNDERSCORE && 0 !in s && !EqNoCase(s, SUB)
  }

  predicate PlainLabel(s: seq<byte>) {
    |s| > 0 && 0 !in s && !EqNoCase(s, SUB)
  }

  lemma FoldThree(n: Name, a: Item, b: Item, c: Item)
    requires |n.slots| == 4 && n.parts <= 4
    ensures Fold(n, [a, b, c]) == AddItem(AddItem(AddItem(n, a), b), c)
  {
    assert [a, b, c][1..] == [b, c] && [b, c][1..] == [c] && [c][1..] == [];
    assert Fold(AddItem(AddItem(n, a), b), [c]) == AddItem(AddItem(AddItem(n, a), b), c);
  }

  lemma ServiceBehind(first: seq<byte>, sub: bool, svc: seq<byte>, proto: seq<byte>)
    requires ServiceLabel(svc) && ServiceLabel(proto)
    ensures Settle(Fold(Name(1, sub, false, [first, [], [], []]), [Label(svc), Label(proto), Label(LOCAL)]))
         == Name(4, sub, false, [first, svc, proto, LOCAL])
  {
    CStrOfText(svc);
    CStrOfText(proto);
    CStrOfText(LOCAL);
    FoldThree(Name(1, sub, false, [first, [], [], []]), Label(svc), Label(proto), Label(LOCAL));
  }

  lemma InstanceName(inst: seq<byte>, svc: seq<byte>, proto: seq<byte>)
    requires PlainLabel(inst) && ServiceLabel(svc) && ServiceLabel(proto)
    ensures Settle(Fold(EMPTY, [Label(inst), Label(svc), Label(proto), Label(LOCAL)]))
         == Name(4, false, false, [inst, svc, proto, LOCAL])
  {
    CStrOfText(inst);
    var items := [Label(inst), Label(svc), Label(proto), Label(LOCAL)];
    assert items[1..] == [Label(svc), Label(proto), Label(LOCAL)];
    assert AddItem(EMPTY, items[0]) == Name(1, false, false, [inst, [], [], []]);
    ServiceBehind(inst, false, svc, proto);
  }

  /** The subtype of a browsing query takes the place of the instance. */
  lemma SubtypeName(subtype: seq<byte>, svc: seq<byte>, proto: seq<byte>)
    requires PlainLabel(subtype) && ServiceLabel(svc) && ServiceLabel(proto)
    ensures var sub := Label([0x5F, 0x73, 0x75, 0x62]);
            Settle(Fold(EMPTY, [Label(subtype), sub, Label(svc), Label(proto), Label(LOCAL)]))
            == Name(4, true, false, [subtype, svc, proto, LOCAL])
  {
    CStrOfText(subtype);
    CStrOfText(SUB);
    var items := [Label(subtype), Label(SUB), Label(svc), Label(proto), Label(LOCAL)];
    assert items[1..][1..] == [Label(svc), Label(proto), Label(LOCAL)];
    var one := AddItem(EMPTY, items[0]);
    assert one == Name(1, false, false, [subtype, [], [], []]);
    assert AddItem(one, items[1]) == one.(sub := true);
    ServiceBehind(subtype, true, svc, proto);
  }

  lemma ServiceName(svc: seq<byte>, proto: seq<byte>)
    requires ServiceLabel(svc) && ServiceLabel(proto)
    ensures Settle(Fold(EMPTY, [Label(svc), Label(proto), Label(LOCAL)]))
         == Name(3, false, false, [[], svc, proto, LOCAL])
  {
    CStrOfText(svc);
    CStrOfText(proto);
    CStrOfText(LOCAL);
    FoldThree(EMPTY, Label(svc), Label(proto), Label(LOCAL));
  }

  /** Further host labels, each behind a dot. */
  function Dotted(more: seq<seq<byte>>): (s: Str) {
    if |more| == 0 then [] else [DOT] + more[0] + Dotted(more[1..])
  }

  function Cut(s: Str): (r: Str) {
    s[..Min(64, |s|)]
  }

  lemma StrCatOfCut(a: Str, b: Str)
    ensures StrCat(Cut(a), b) == Cut(a + b)
  {
    if |a| >= NAME_MAX {
      assert Cut(a) == Cut(a + b);
    } else {
      assert Cut(a) == a;
    }
  }

  predicate HostLabels(more: seq<seq<byte>>) {
    forall k :: 0 <= k < |more| ==> PlainLabel(more[k]) && ExtendsHost(more[k])
  }

  function WithHost(n: Name, host: Str): (r: Name)
    requires |n.slots| == 4
  {
    n.(slots := n.slots[0 := host])
  }

  lemma AddHostLabel(n: Name, host: Str, m: seq<byte>)
    requires |n.slots| == 4 && n.parts == 1 && n.slots[0] == Cut(host) && PlainLabel(m) && ExtendsHost(m)
    ensures AddItem(n, Label(m)) == WithHost(n, Cut(host + [DOT] + m))
  {
    CStrOfText(m);
    StrCatOfCut(host, [DOT]);
    StrCatOfCut(host + [DOT], m);
  }

  lemma DottedFirst(host: Str, more: seq<seq<byte>>)
    requires |more| > 0
    ensures host + Dotted(more) == host + [DOT] + more[0] + Dotted(more[1..])
  {
    Regroup(host, [DOT] + more[0], Dotted(more[1..]));
    Regroup(host, [DOT], more[0]);
  }

  lemma {:induction false} FoldHostLabels(n: Name, host: Str, more: seq<seq<byte>>, tail: seq<Item>)
    requires |n.slots| == 4 && n.parts == 1 && n.slots[0] == Cut(host) && HostLabels(more)
    ensures Fold(n, Labels(more) + tail) == Fold(WithHost(n, Cut(host + Dotted(more))), tail)
    decreases |more|
  {
    if |more| == 0 {
      assert Labels(more) + tail == tail && host + [] == host;
      assert n.slots[0 := n.slots[0]] == n.slots;
    } else {
      var longer := host + [DOT] + more[0];
      AddHostLabel(n, host, more[0]);
      Regroup([Label(more[0])], Labels(more[1..]), tail);
      FoldCons(n, Label(more[0]), Labels(more[1..]) + tail);
      FoldHostLabels(WithHost(n, Cut(longer)), longer, more[1..], tail);
      DottedFirst(host, more);
      HostTwice(n, Cut(longer), Cut(host + Dotted(more)));
    }
  }

  lemma HostTwice(n: Name, a: Str, b: Str)
    requires |n.slots| == 4
    ensures WithHost(WithHost(n, a), b) == WithHost(n, b)
  {
    assert n.slots[0 := a][0 := b] == n.slots[0 := b];
  }

  /** A host label may be followed by any number of host labels; joined with dots, they are cut at 64 characters. */
  lemma HostName(host: seq<byte>, more: seq<seq<byte>>)
    requires PlainLabel(host) && |host| <= LABEL_MAX && HostLabels(more)
    ensures Settle(Fold(EMPTY, Labels([host] + more) + [Label(LOCAL)]))
         == Name(2, false, false, [Cut(host + Dotted(more)), [], [], LOCAL])
  {
    CStrOfText(host);
    CStrOfText(LOCAL);
    assert ([host] + more)[1..] == more;
    Regroup([Label(host)], Labels(more), [Label(LOCAL)]);
    FoldCons(EMPTY, Label(host), Labels(more) + [Label(LOCAL)]);
    var n := AddItem(EMPTY, Label(host));
    FoldHostLabels(n, host, more, [Label(LOCAL)]);
    FoldCons(WithHost(n, Cut(host + Dotted(more))), Label(LOCAL), []);
  }
}
