/**
 The JSON excerpt of the log ring: which lines it contains, that it stays inside its buffer, and
 that every counted entry reads back as a prefix of its line.
 */
module LogExcerpt {
  import opened Bytes
  import opened LogRing

  const QUOTE: byte := 0x22
  const BACKSLASH: byte := 0x5C

  // {"seq":  ,"ts":  ,"msg":"
  const OPEN_SEQ: seq<byte> := [0x7B, 0x22, 0x73, 0x65, 0x71, 0x22, 0x3A]
  const THEN_TS: seq<byte> := [0x2C, 0x22, 0x74, 0x73, 0x22, 0x3A]
  const THEN_MSG: seq<byte> := [0x2C, 0x22, 0x6D, 0x73, 0x67, 0x22, 0x3A, 0x22]

  // ---- Escaping ----

  function Hex(n: nat): (h: byte)
    requires n < 16
  {
    if n < 10 then 0x30 + n else 0x61 + (n - 10)
  }

  function UnHex(h: byte): (n: nat) {
    if 0x30 <= h <= 0x39 then h - 0x30 else if 0x61 <= h <= 0x66 then h - 0x61 + 10 else 0
  }

  function EscapeByte(c: byte): (r: seq<byte>)
    ensures 1 <= |r| <= 6
  {
    if c == QUOTE || c == BACKSLASH then [BACKSLASH, c]
    else if c < 0x20 then [BACKSLASH, 0x75, 0x30, 0x30, Hex(c / 16), Hex(c % 16)]
    else [c]
  }

  function Escape(s: seq<byte>): (r: seq<byte>) {
    if |s| == 0 then [] else Escape(s[..|s| - 1]) + EscapeByte(s[|s| - 1])
  }

  /** Quotes and backslashes get a backslash, control characters become "\u00" and two hexadecimal digits. */
  lemma EscapeSpelled(c: byte)
    ensures c == 0x22 ==> EscapeByte(c) == Ascii("\\\"")
    ensures c == 0x5C ==> EscapeByte(c) == Ascii("\\\\")
    ensures c < 0x20 ==>
              EscapeByte(c) == Ascii("\\u00") + [Ascii("0123456789abcdef")[c / 16], Ascii("0123456789abcdef")[c % 16]]
    ensures c >= 0x20 && c != 0x22 && c != 0x5C ==> EscapeByte(c) == [c]
  {
  }

  /** What a JSON reader makes of the characters between the quotes. */
  function Unescape(s: seq<byte>): (r: seq<byte>) {
    if |s| == 0 then []
    else if s[0] != BACKSLASH then [s[0]] + Unescape(s[1..])
    else if |s| >= 6 && s[1] == 0x75 then [(UnHex(s[4]) * 16 + UnHex(s[5])) % 256] + Unescape(s[6..])
    else if |s| >= 2 then [s[1]] + Unescape(s[2..])
    else []
  }

  lemma UnescapeOne(c: byte, rest: seq<byte>)
    ensures Unescape(EscapeByte(c) + rest) == [c] + Unescape(rest)
  {
    var e := EscapeByte(c);
    assert (e + rest)[|e|..] == rest;
    assert c < 0x20 ==> UnHex(Hex(c / 16)) == c / 16 && UnHex(Hex(c % 16)) == c % 16;
  }

  lemma {:induction false} UnescapeBefore(s: seq<byte>, rest: seq<byte>)
    ensures Unescape(Escape(s) + rest) == s + Unescape(rest)
    decreases |s|
  {
    if |s| == 0 {
      assert Escape(s) + rest == rest;
    } else {
      var init, c := s[..|s| - 1], s[|s| - 1];
      var code := EscapeByte(c);
      UnescapeBefore(init, code + rest);
      UnescapeOne(c, rest);
      Regroup(Escape(init), code, rest);
      Regroup(init, [c], Unescape(rest));
      assert s == init + [c];
    }
  }

  /** Where a JSON reader takes the string to end: at the first quote that no backslash protects. */
  function StringEnd(s: seq<byte>): (n: nat)
    ensures n <= |s|
  {
    if |s| == 0 || s[0] == QUOTE then 0
    else if s[0] == BACKSLASH && |s| >= 2 then 2 + StringEnd(s[2..])
    else 1 + StringEnd(s[1..])
  }

  lemma EndBehindOne(c: byte, rest: seq<byte>)
    ensures StringEnd(EscapeByte(c) + rest) == |EscapeByte(c)| + StringEnd(rest)
  {
    var e := EscapeByte(c);
    if |e| == 1 {
      EndBehindPlain(e, rest);
    } else {
      assert (e + rest)[2..] == e[2..] + rest;
      EndBehindPlain(e[2..], rest);
    }
  }

  lemma {:induction false} EndBehindPlain(s: seq<byte>, rest: seq<byte>)
    requires QUOTE !in s && BACKSLASH !in s
    ensures StringEnd(s + rest) == |s| + StringEnd(rest)
  {
    if |s| == 0 {
      assert s + rest == rest;
    } else {
      assert (s + rest)[1..] == s[1..] + rest;
      EndBehindPlain(s[1..], rest);
    }
  }

  /** The escaped text holds no bare quote: a reader finds its end exactly where the writer put it. */
  lemma EndIsFound(s: seq<byte>, rest: seq<byte>)
    ensures StringEnd(Escape(s) + ([QUOTE] + rest)) == |Escape(s)|
  {
    EndBehind(s, [QUOTE] + rest);
  }

  lemma {:induction false} EndBehind(s: seq<byte>, rest: seq<byte>)
    ensures StringEnd(Escape(s) + rest) == |Escape(s)| + StringEnd(rest)
    decreases |s|
  {
    if |s| == 0 {
      assert Escape(s) + rest == rest;
    } else {
      var init, code := s[..|s| - 1], EscapeByte(s[|s| - 1]);
      EndBehind(init, code + rest);
      EndBehindOne(s[|s| - 1], rest);
      Regroup(Escape(init), code, rest);
    }
  }

  /** Escaping loses nothing. */
  lemma EscapeRoundTrip(s: seq<byte>)
    ensures Unescape(Escape(s)) == s
  {
    UnescapeBefore(s, []);
    assert Escape(s) + [] == Escape(s);
  }

  lemma {:induction false} EscapedIsPrintable(s: seq<byte>)
    ensures forall i :: 0 <= i < |Escape(s)| ==> Escape(s)[i] >= 0x20
  {
    if |s| > 0 {
      EscapedIsPrintable(s[..|s| - 1]);
    }
  }

  // ---- The excerpt ----

  function Header(number: nat, ts: nat): (h: seq<byte>) {
    Flatten([OPEN_SEQ, Digits(number), THEN_TS, Digits(ts), THEN_MSG])
  }

  const CLOSE: seq<byte> := [0x22, 0x7D]
  const COMMA: seq<byte> := [0x2C]

  /** One entry that shows the first `kept` bytes of its line. */
  function EntryText(number: nat, e: Entry, kept: nat): (t: seq<byte>)
    requires kept <= |e.line.msg|
  {
    Header(number, e.ts) + Escape(e.line.msg[..kept]) + CLOSE
  }

  function Separator(first: bool): (s: seq<byte>) {
    if first then [] else COMMA
  }

  /** How much of the last of `n` entries from `from` on there is to show. */
  function Full(log: seq<Entry>, from: nat, n: nat): (k: nat)
    requires n == 0 || from + n <= |log|
  {
    if n == 0 then 0 else |log[from + n - 1].line.msg|
  }

  /** What an excerpt of `n` lines shows of line `k` of it. */
  function ShownOf(log: seq<Entry>, from: nat, n: nat, kept: nat, k: nat): (shown: nat)
    requires k < n && from + n <= |log|
  {
    if k == n - 1 then kept else |log[from + k].line.msg|
  }

  /** The texts of `n` entries from `from` on: all whole but the last, which shows `kept` bytes. */
  function EntryTexts(log: seq<Entry>, from: nat, n: nat, kept: nat): (texts: seq<seq<byte>>)
    requires n == 0 || from + n <= |log|
    requires kept <= Full(log, from, n)
  {
    seq(n, k requires 0 <= k < n => EntryText(from + k, log[from + k], ShownOf(log, from, n, kept, k)))
  }

  /** Texts separated by commas. */
  function Joined(texts: seq<seq<byte>>): (s: seq<byte>) {
    if |texts| == 0 then []
    else Joined(texts[..|texts| - 1]) + (Separator(|texts| == 1) + texts[|texts| - 1])
  }

  function Excerpt(log: seq<Entry>, from: nat, n: nat, kept: nat): (t: seq<byte>)
    requires n == 0 || from + n <= |log|
    requires kept <= Full(log, from, n)
  {
    Joined(EntryTexts(log, from, n, kept))
  }

  lemma TextsGrow(log: seq<Entry>, from: nat, n: nat, kept: nat)
    requires from + n < |log| && kept <= |log[from + n].line.msg|
    ensures EntryTexts(log, from, n + 1, kept)
         == EntryTexts(log, from, n, Full(log, from, n)) + [EntryText(from + n, log[from + n], kept)]
  {
  }

  lemma JoinedGrows(texts: seq<seq<byte>>, text: seq<byte>)
    ensures Joined(texts + [text]) == Joined(texts) + (Separator(|texts| == 0) + text)
  {
    assert (texts + [text])[..|texts|] == texts;
  }

  /** snprintf at `pos`: never past the end, complete if it fits with its terminator. */
  method PutBounded(out: array<byte>, pos: nat, data: seq<byte>)
    requires pos < out.Length
    modifies out
    ensures out[..pos] == old(out[..pos])
    ensures pos + |data| < out.Length ==> out[..pos + |data|] == old(out[..pos]) + data
  {
    var room := out.Length - 1 - pos;
    var n := if |data| <= room then |data| else room;
    forall i | 0 <= i < n {
      out[pos + i] := data[i];
    }
    out[pos + n] := 0;
  }

  method PutEscaped(out: array<byte>, pos: nat, c: byte) returns (end: nat)
    requires pos + 7 < out.Length
    modifies out
    ensures end == pos + |EscapeByte(c)|
    ensures out[..end] == old(out[..pos]) + EscapeByte(c)
  {
    if c == QUOTE || c == BACKSLASH {
      out[pos], out[pos + 1] := BACKSLASH, c;
      end := pos + 2;
    } else if c < 0x20 {
      var code := EscapeByte(c);
      PutBounded(out, pos, code);
      end := pos + |code|;
    } else {
      out[pos] := c;
      end := pos + 1;
    }
  }

  /** The escaping loop: stops when fewer than eight bytes are left. */
  method PutMessage(out: array<byte>, pos: nat, msg: seq<byte>) returns (end: nat, kept: nat)
    requires pos < out.Length
    modifies out
    ensures pos <= end <= out.Length && kept <= |msg|
    ensures out[..end] == old(out[..pos]) + Escape(msg[..kept])
    ensures kept < |msg| ==> end + 7 >= out.Length
  {
    end, kept := pos, 0;
    while kept < |msg| && end + 7 < out.Length
      invariant pos <= end < out.Length && kept <= |msg|
      invariant out[..end] == old(out[..pos]) + Escape(msg[..kept])
    {
      assert msg[..kept + 1][..kept] == msg[..kept];
      end := PutEscaped(out, end, msg[kept]);
      kept := kept + 1;
    }
  }

  /** Comma and header; the header may not fit, since the room estimate is short of its longest form. */
  method OpenEntry(out: array<byte>, pos: nat, first: bool, header: seq<byte>) returns (fits: bool, end: nat)
    requires pos + 36 < out.Length
    modifies out
    ensures out[..pos] == old(out[..pos])
    ensures fits == (end < out.Length) && end == pos + |Separator(first)| + |header|
    ensures fits ==> out[..end] == old(out[..pos]) + (Separator(first) + header)
  {
    end := pos;
    ghost var base := out[..pos];
    if !first {
      out[end] := COMMA[0];
      end := end + 1;
    }
    assert out[..end] == base + Separator(first);
    PutBounded(out, end, header);
    assert out[..pos] == out[..end][..pos];
    end := end + |header|;
    fits := end < out.Length;
  }

  /** The whole entry does not fit behind `size` bytes: by its true length, or by the estimate. */
  ghost predicate NoRoom(size: nat, e: Entry, number: nat, cap: nat) {
    size + 36 + |e.line.msg| * 2 < cap ==> size + 1 + |EntryText(number, e, |e.line.msg|)| >= cap
  }

  lemma {:induction false} EscapeGrows(s: seq<byte>, k: nat)
    requires k <= |s|
    ensures |Escape(s[..k])| <= |Escape(s)|
    decreases |s|
  {
    if k == |s| {
      assert s[..k] == s;
    } else {
      EscapeGrows(s[..|s| - 1], k);
      assert s[..|s| - 1][..k] == s[..k];
    }
  }

  method PutEntry(out: array<byte>, pos: nat, first: bool, e: Entry, number: nat)
    returns (ok: bool, end: nat, kept: nat)
    requires pos + 36 < out.Length
    modifies out
    ensures kept <= |e.line.msg| && pos <= end
    ensures ok ==> end <= out.Length && out[..end] == old(out[..pos]) + (Separator(first) + EntryText(number, e, kept))
    ensures ok && kept < |e.line.msg| ==> end + 5 >= out.Length
    ensures !ok ==> out[..pos] == old(out[..pos]) && NoRoom(pos, e, number, out.Length)
  {
    ok, kept := false, 0;
    ghost var base, header := out[..pos], Header(number, e.ts);
    var fits;
    fits, end := OpenEntry(out, pos, first, Header(number, e.ts));
    if !fits {
      return;
    }
    end, kept := PutMessage(out, end, e.line.msg);
    ghost var body := Escape(e.line.msg[..kept]);
    assert out[..end] == base + (Separator(first) + header) + body;
    if end + 2 >= out.Length {
      assert out[..pos] == out[..end][..pos] == base;
      EscapeGrows(e.line.msg, kept);
      assert e.line.msg[..|e.line.msg|] == e.line.msg;
      return;
    }
    Close(out, end, base + (Separator(first) + header) + body);
    end := end + 2;
    ok := true;
    Reassociate(base, Separator(first), header, body);
  }

  lemma Reassociate(base: seq<byte>, sep: seq<byte>, header: seq<byte>, body: seq<byte>)
    ensures base + (sep + header) + body + CLOSE == base + (sep + (header + body + CLOSE))
  {
  }

  method Close(out: array<byte>, end: nat, ghost before: seq<byte>)
    requires end + 2 < out.Length && out[..end] == before
    modifies out
    ensures out[..end + 2] == before + CLOSE
  {
    out[end], out[end + 1] := CLOSE[0], CLOSE[1];
  }

  method Slot(ring: Ring, s: nat) returns (e: Entry)
    requires ring.Valid() && Oldest(ring.head, ring.lines.Length) <= s < ring.head
    ensures e == ring.log[s]
  {
    e := ring.lines[SlotOf(s, ring.lines.Length)];
    assert e == ring.lines[..][SlotOf(s, ring.lines.Length)];
  }

  lemma ExcerptGrows(log: seq<Entry>, from: nat, n: nat, kept: nat)
    requires from + n < |log| && kept <= |log[from + n].line.msg|
    ensures Excerpt(log, from, n + 1, kept)
         == Excerpt(log, from, n, Full(log, from, n)) + (Separator(n == 0) + EntryText(from + n, log[from + n], kept))
  {
    TextsGrow(log, from, n, kept);
    JoinedGrows(EntryTexts(log, from, n, Full(log, from, n)), EntryText(from + n, log[from + n], kept));
  }

  /** The buffer begins with `count` entries from `from` on; the last is cut only for want of room. */
  ghost predicate Filled(text: seq<byte>, cap: nat, log: seq<Entry>, from: nat, count: nat, kept: nat) {
    && (count == 0 || from + count <= |log|)
    && kept <= Full(log, from, count) && (kept < Full(log, from, count) ==> |text| + 5 >= cap)
    && text == Excerpt(log, from, count, kept)
  }

  /** One turn of the loop over the lines; `more` tells whether the entry was completed. */
  method AddEntry(out: array<byte>, pos: nat, e: Entry, from: nat, count: nat, ghost log: seq<Entry>, ghost kept: nat)
    returns (more: bool, end: nat, ghost kept': nat)
    requires from + count < |log| && e == log[from + count]
    requires pos <= out.Length && Filled(out[..pos], out.Length, log, from, count, kept)
    modifies out
    ensures pos <= end
    ensures more ==> end <= out.Length && Filled(out[..end], out.Length, log, from, count + 1, kept')
    ensures !more ==> out[..pos] == old(out[..pos]) && NoRoom(pos, e, from + count, out.Length)
  {
    more, end, kept' := false, pos, kept;
    if pos + 32 + |e.line.msg| * 2 + 4 >= out.Length {
      return;
    }
    var shown;
    more, end, shown := PutEntry(out, pos, count == 0, e, from + count);
    if more {
      kept' := shown;
      ExcerptGrows(log, from, count, kept');
    }
  }

  /** The loop over the lines from `from` on; it stops early only for want of room. */
  method FillFrom(ring: Ring, from: nat, out: array<byte>)
    returns (count: nat, pos: nat, ghost used: nat, ghost kept: nat)
    requires ring.Valid() && Oldest(ring.head, ring.lines.Length) <= from
    modifies out
    ensures used <= pos && used <= out.Length
    ensures Filled(out[..used], out.Length, ring.log, from, count, kept)
    ensures from + count < ring.head ==> NoRoom(used, ring.log[from + count], from + count, out.Length)
  {
    ghost var log := ring.log;
    count, pos, used, kept := 0, 0, 0, 0;
    while from + count < ring.head
      invariant used == pos <= out.Length
      invariant Filled(out[..pos], out.Length, log, from, count, kept)
    {
      var e := Slot(ring, from + count);
      var more;
      ghost var shown;
      more, pos, shown := AddEntry(out, pos, e, from, count, log, kept);
      if !more {
        return;
      }
      used, kept := pos, shown;
      count := count + 1;
    }
  }

  /** The whole call: a gap-free run of lines from max(since, oldest) on fills the buffer's beginning. */
  method GetSince(ring: Ring, since: nat, out: array<byte>)
    returns (count: nat, head: nat, oldest: nat, ghost from: nat, ghost used: nat, ghost kept: nat)
    requires ring.Valid()
    modifies out
    ensures out.Length == 0 ==> count == head == oldest == 0
    ensures out.Length > 0 ==>
              head == ring.head &&
              oldest == if ring.head > ring.lines.Length then ring.head - ring.lines.Length else 0
    ensures from == if since < oldest then oldest else since
    ensures used <= out.Length && Filled(out[..used], out.Length, ring.log, from, count, kept)
    ensures out.Length > 0 && from + count < head ==>
              NoRoom(used, ring.log[from + count], from + count, out.Length)
  {
    count, head, oldest := 0, 0, 0;
    from, used, kept := since, 0, 0;
    if out.Length > 0 {
      head, oldest := ring.head, Oldest(ring.head, ring.lines.Length);
      var start, pos := (if since < oldest then oldest else since), 0;
      from := start;
      count, pos, used, kept := FillFrom(ring, start, out);
      Terminate(out, pos, used);
    }
  }

  method Terminate(out: array<byte>, pos: nat, ghost used: nat)
    requires used <= out.Length && used <= pos
    modifies out
    ensures out[..used] == old(out[..used])
  {
    if pos < out.Length {
      out[pos] := 0;
    }
  }

  /** What a reader makes of a string whose opening quote is behind it. */
  function ReadString(s: seq<byte>): (m: seq<byte>) {
    Unescape(s[..StringEnd(s)])
  }

  /** A reader of a counted entry finds the end of its message, and gets the first `kept` bytes of the line. */
  lemma EntryReadsBack(number: nat, e: Entry, kept: nat, rest: seq<byte>)
    requires kept <= |e.line.msg|
    ensures var t, h := EntryText(number, e, kept), |Header(number, e.ts)|;
            h <= |t| && ReadString((t + rest)[h..]) == e.line.msg[..kept]
  {
    var h, body := Header(number, e.ts), Escape(e.line.msg[..kept]);
    var behind := (EntryText(number, e, kept) + rest)[|h|..];
    assert behind == body + ([QUOTE] + ([CLOSE[1]] + rest));
    EndIsFound(e.line.msg[..kept], [CLOSE[1]] + rest);
    assert behind[..|body|] == body;
    EscapeRoundTrip(e.line.msg[..kept]);
  }

  // ---- Colour sequences are stripped in place ----

  const ESC: byte := 0x1B
  const BRACKET: byte := 0x5B
  const LETTER_M: byte := 0x6D

  /** Text behind the next 'm', or nothing. */
  function AfterM(s: seq<byte>): (r: seq<byte>)
    ensures |r| <= |s|
  {
    if |s| == 0 then [] else if s[0] == LETTER_M then s[1..] else AfterM(s[1..])
  }

  function Strip(s: seq<byte>): (r: seq<byte>)
    ensures |r| <= |s|
    decreases |s|
  {
    if |s| == 0 then []
    else if |s| >= 2 && s[0] == ESC && s[1] == BRACKET then Strip(AfterM(s[2..]))
    else [s[0]] + Strip(s[1..])
  }

  /** Read cursor behind the next 'm', or at the end. */
  method SkipColour(a: array<byte>, from: nat, n: nat) returns (r: nat)
    requires from <= n <= a.Length
    ensures from <= r <= n && a[r..n] == AfterM(a[from..n])
  {
    r := from;
    while r < n && a[r] != LETTER_M
      invariant from <= r <= n && AfterM(a[r..n]) == AfterM(a[from..n])
    {
      assert a[r..n][1..] == a[r + 1..n];
      r := r + 1;
    }
    if r < n {
      assert a[r..n][1..] == a[r + 1..n];
      r := r + 1;
    }
  }

  /** `a[..n]` is the string; the write cursor never overtakes the read cursor. */
  method StripInPlace(a: array<byte>, n: nat) returns (w: nat)
    requires n <= a.Length
    modifies a
    ensures w <= n && a[..w] == Strip(old(a[..n]))
  {
    var r := 0;
    w := 0;
    ghost var goal := Strip(a[..n]);
    assert a[..n] == a[0..n];
    while r < n
      invariant 0 <= w <= r <= n
      invariant a[..w] + Strip(a[r..n]) == goal
    {
      if a[r] == ESC && r + 1 < n && a[r + 1] == BRACKET {
        assert a[r..n][2..] == a[r + 2..n];
        r := SkipColour(a, r + 2, n);
      } else {
        ghost var head, rest := a[..w], a[r..n];
        CopyDown(a, w, r, n);
        KeepOne(head, rest);
        w := w + 1;
        r := r + 1;
      }
    }
  }

  method CopyDown(a: array<byte>, w: nat, r: nat, n: nat)
    requires w <= r < n <= a.Length
    modifies a
    ensures a[..w + 1] == old(a[..w]) + [old(a[r])] && a[r + 1..n] == old(a[r..n])[1..]
  {
    a[w] := a[r];
  }

  lemma KeepOne(head: seq<byte>, rest: seq<byte>)
    requires |rest| > 0 && !(|rest| >= 2 && rest[0] == ESC && rest[1] == BRACKET)
    ensures head + [rest[0]] + Strip(rest[1..]) == head + Strip(rest)
  {
    Regroup(head, [rest[0]], Strip(rest[1..]));
  }

  /** A coloured log line becomes exactly its text. */
  lemma {:induction false} ColouredLine(code: seq<byte>, text: seq<byte>, tail: seq<byte>)
    requires 0x6D !in code && 0x1B !in text
    ensures Strip([0x1B, 0x5B] + code + [0x6D] + text + tail) == text + Strip(tail)
  {
    var line := [ESC, BRACKET] + code + [LETTER_M] + text + tail;
    assert line[2..] == code + ([LETTER_M] + (text + tail));
    AfterCode(code, text + tail);
    StripPlain(text, tail);
  }

  /** An escape byte that no bracket follows stays, and a colour sequence that never ends swallows the rest. */
  lemma StrayEscape(s: seq<byte>)
    ensures s == [] || s[0] != 0x5B ==> Strip([0x1B] + s) == [0x1B] + Strip(s)
    ensures 0x6D !in s ==> Strip([0x1B, 0x5B] + s) == []
  {
    assert ([0x1B] + s)[1..] == s && ([0x1B, 0x5B] + s)[2..] == s;
    if 0x6D !in s {
      NoLetterM(s);
    }
  }

  lemma {:induction false} NoLetterM(s: seq<byte>)
    requires LETTER_M !in s
    ensures AfterM(s) == []
  {
    if |s| > 0 {
      NoLetterM(s[1..]);
    }
  }

  lemma {:induction false} AfterCode(code: seq<byte>, rest: seq<byte>)
    requires LETTER_M !in code
    ensures AfterM(code + ([LETTER_M] + rest)) == rest
  {
    if |code| > 0 {
      assert (code + ([LETTER_M] + rest))[1..] == code[1..] + ([LETTER_M] + rest);
      AfterCode(code[1..], rest);
    } else {
      assert code + ([LETTER_M] + rest) == [LETTER_M] + rest;
      assert ([LETTER_M] + rest)[1..] == rest;
    }
  }

  lemma {:induction false} StripPlain(text: seq<byte>, tail: seq<byte>)
    requires ESC !in text
    ensures Strip(text + tail) == text + Strip(tail)
  {
    if |text| > 0 {
      assert (text + tail)[1..] == text[1..] + tail;
      StripPlain(text[1..], tail);
      assert [text[0]] + (text[1..] + Strip(tail)) == text + Strip(tail);
    } else {
      assert text + tail == tail;
    }
  }
}
