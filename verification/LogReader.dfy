/**
 What a reader makes of the whole excerpt: the entries' numbers, time stamps and texts, in order.
 */
module LogReader {
  import opened Bytes
  import opened LogRing
  import opened LogExcerpt

  datatype Item = Item(number: nat, ts: nat, msg: seq<byte>)

  predicate IsDigit(b: byte) { 0x30 <= b <= 0x39 }

  /** Length of the run of digits at the beginning. */
  function DigitRun(s: seq<byte>): (n: nat)
    ensures n <= |s|
  {
    if |s| == 0 || !IsDigit(s[0]) then 0 else 1 + DigitRun(s[1..])
  }

  function Value(s: seq<byte>): (n: nat) {
    if |s| == 0 then 0 else Value(s[..|s| - 1]) * 10 + (if s[|s| - 1] >= 0x30 then s[|s| - 1] - 0x30 else 0)
  }

  lemma {:induction false} ValueOfDigits(n: nat)
    ensures Value(Digits(n)) == n && forall i :: 0 <= i < |Digits(n)| ==> IsDigit(Digits(n)[i])
  {
    DigitsEnd(n);
    if n >= 10 {
      ValueOfDigits(n / 10);
    } else {
      assert Value([]) == 0;
    }
  }

  lemma {:induction false} DigitRunEnds(d: seq<byte>, rest: seq<byte>)
    requires forall i :: 0 <= i < |d| ==> IsDigit(d[i])
    requires |rest| > 0 && !IsDigit(rest[0])
    ensures DigitRun(d + rest) == |d|
  {
    if |d| == 0 {
      assert d + rest == rest;
    } else {
      assert (d + rest)[1..] == d[1..] + rest;
      DigitRunEnds(d[1..], rest);
    }
  }

  /** `s` without its first `n` bytes, if it has that many. */
  function Behind(s: seq<byte>, n: nat): (r: seq<byte>) {
    if n <= |s| then s[n..] else []
  }

  lemma BehindPart(a: seq<byte>, b: seq<byte>)
    ensures Behind(a + b, |a|) == b
  {
  }

  /** A number, and what follows it. */
  function ReadNumber(s: seq<byte>): (r: (nat, seq<byte>)) {
    (Value(s[..DigitRun(s)]), s[DigitRun(s)..])
  }

  lemma NumberReadsBack(n: nat, rest: seq<byte>)
    requires |rest| > 0 && !IsDigit(rest[0])
    ensures ReadNumber(Digits(n) + rest) == (n, rest)
  {
    ValueOfDigits(n);
    DigitRunEnds(Digits(n), rest);
    assert (Digits(n) + rest)[..|Digits(n)|] == Digits(n) && (Digits(n) + rest)[|Digits(n)|..] == rest;
  }

  /** An entry is a JSON object as the log page expects it. */
  lemma EntrySpelled(number: nat, e: Entry, kept: nat)
    requires kept <= |e.line.msg|
    ensures EntryText(number, e, kept) ==
            Ascii("{\"seq\":") + Digits(number) + Ascii(",\"ts\":") + Digits(e.ts) + Ascii(",\"msg\":\"")
            + Escape(e.line.msg[..kept]) + Ascii("\"}")
  {
    HeaderInParts(number, e.ts);
    assert OPEN_SEQ == Ascii("{\"seq\":") && THEN_TS == Ascii(",\"ts\":");
    assert THEN_MSG == Ascii(",\"msg\":\"") && CLOSE == Ascii("\"}");
    var d, t := Digits(number), Digits(e.ts);
    assert Header(number, e.ts) == OPEN_SEQ + d + THEN_TS + t + THEN_MSG;
  }

  // ---- When one more line fits ----

  lemma {:induction false} EscapeBounds(s: seq<byte>)
    ensures |s| <= |Escape(s)| <= 6 * |s|
  {
    if |s| > 0 {
      EscapeBounds(s[..|s| - 1]);
    }
  }

  /** A number of at most `k` digits is printed with at most `k` digits. */
  lemma {:induction false} DigitCount(n: nat, k: nat, limit: nat)
    requires k > 0 && n < limit && limit == Power(k)
    ensures |Digits(n)| <= k
  {
    if n >= 10 {
      DigitCount(n / 10, k - 1, Power(k - 1));
    }
  }

  function Power(k: nat): (p: nat) {
    if k == 0 then 1 else 10 * Power(k - 1)
  }

  /**
   44 bytes besides six for each byte of the line are always enough for one more whole entry: numbers and
   time stamps are 32 bits wide.
   */
  lemma AmpleRoom(size: nat, e: Entry, number: nat, cap: nat)
    requires number < 0x1_0000_0000 && e.ts < 0x1_0000_0000 && size + 44 + 6 * |e.line.msg| < cap
    ensures !NoRoom(size, e, number, cap)
  {
    var msg := e.line.msg;
    DigitCount(number, 10, 10_000_000_000);
    DigitCount(e.ts, 10, 10_000_000_000);
    EscapeBounds(msg);
    assert msg[..|msg|] == msg;
    HeaderLength(number, e.ts);
  }

  lemma HeaderLength(number: nat, ts: nat)
    ensures |Header(number, ts)| == 21 + |Digits(number)| + |Digits(ts)|
  {
    HeaderInParts(number, ts);
  }

  /** One entry, and what follows it. */
  function ReadEntry(s: seq<byte>): (r: (Item, seq<byte>)) {
    var (number, s1) := ReadNumber(Behind(s, |OPEN_SEQ|));
    var (ts, s2) := ReadNumber(Behind(s1, |THEN_TS|));
    var s3 := Behind(s2, |THEN_MSG|);
    (Item(number, ts, ReadString(s3)), Behind(s3, StringEnd(s3) + |CLOSE|))
  }

  lemma EntryReads(number: nat, e: Entry, kept: nat, rest: seq<byte>)
    requires kept <= |e.line.msg|
    ensures ReadEntry(EntryText(number, e, kept) + rest) == (Item(number, e.ts, e.line.msg[..kept]), rest)
  {
    var body := Escape(e.line.msg[..kept]);
    var s3 := body + ([QUOTE] + ([CLOSE[1]] + rest));
    var s2 := THEN_MSG + s3;
    var s1 := THEN_TS + (Digits(e.ts) + s2);
    EntryInParts(number, e, kept, rest);
    BehindPart(OPEN_SEQ, Digits(number) + s1);
    NumberReadsBack(number, s1);
    BehindPart(THEN_TS, Digits(e.ts) + s2);
    NumberReadsBack(e.ts, s2);
    BehindPart(THEN_MSG, s3);
    StringReads(e.line.msg[..kept], rest);
  }

  lemma EntryInParts(number: nat, e: Entry, kept: nat, rest: seq<byte>)
    requires kept <= |e.line.msg|
    ensures var s3 := Escape(e.line.msg[..kept]) + ([QUOTE] + ([CLOSE[1]] + rest));
            var parts := OPEN_SEQ + (Digits(number) + (THEN_TS + (Digits(e.ts) + (THEN_MSG + s3))));
            EntryText(number, e, kept) + rest == parts
  {
    HeaderInParts(number, e.ts);
  }

  lemma HeaderInParts(number: nat, ts: nat)
    ensures Header(number, ts) == OPEN_SEQ + (Digits(number) + (THEN_TS + (Digits(ts) + THEN_MSG)))
  {
    var d, t := Digits(number), Digits(ts);
    FlattenFirst(OPEN_SEQ, [d, THEN_TS, t, THEN_MSG]);
    FlattenFirst(d, [THEN_TS, t, THEN_MSG]);
    FlattenFirst(THEN_TS, [t, THEN_MSG]);
    FlattenFirst(t, [THEN_MSG]);
    FlattenFirst(THEN_MSG, []);
    assert [OPEN_SEQ] + [d, THEN_TS, t, THEN_MSG] == [OPEN_SEQ, d, THEN_TS, t, THEN_MSG];
    assert [d] + [THEN_TS, t, THEN_MSG] == [d, THEN_TS, t, THEN_MSG];
    assert [THEN_TS] + [t, THEN_MSG] == [THEN_TS, t, THEN_MSG];
    assert [t] + [THEN_MSG] == [t, THEN_MSG] && [THEN_MSG] + [] == [THEN_MSG] && THEN_MSG + [] == THEN_MSG;
  }

  lemma FlattenFirst(first: seq<byte>, rest: seq<seq<byte>>)
    ensures Flatten([first] + rest) == first + Flatten(rest)
  {
    assert ([first] + rest)[1..] == rest;
  }

  lemma StringReads(msg: seq<byte>, rest: seq<byte>)
    ensures var s3 := Escape(msg) + ([QUOTE] + ([CLOSE[1]] + rest));
            ReadString(s3) == msg && Behind(s3, StringEnd(s3) + |CLOSE|) == rest
  {
    EndIsFound(msg, [CLOSE[1]] + rest);
    EscapeRoundTrip(msg);
    Quoted(Escape(msg), rest);
  }

  lemma Quoted(body: seq<byte>, rest: seq<byte>)
    ensures var s := body + ([QUOTE] + ([CLOSE[1]] + rest)); s[..|body|] == body && Behind(s, |body| + |CLOSE|) == rest
  {
  }

  // ---- Many entries ----

  /** Entries are separated by commas, and by nothing else. */
  lemma CommaSeparated(texts: seq<seq<byte>>, text: seq<byte>)
    ensures Joined([]) == [] && Joined([text]) == text
    ensures texts != [] ==> Joined(texts + [text]) == Joined(texts) + Ascii(",") + text
  {
    JoinedGrows([], text);
    JoinedGrows(texts, text);
    assert [] + [text] == [text] && COMMA == Ascii(",");
  }

  /** How one entry is read off the front of a text. */
  type Reader = seq<byte> -> (Item, seq<byte>)

  /** Entries separated by single bytes, up to the end of the text. */
  function ReadAll(read: Reader, s: seq<byte>): (items: seq<Item>)
    decreases |s|
  {
    if |s| == 0 then []
    else
      var (item, rest) := read(s);
      if |rest| >= |s| then [] else [item] + ReadAll(read, Behind(rest, 1))
  }

  /** Whatever stands behind it, the text reads as the item. */
  ghost predicate Reads(read: Reader, text: seq<byte>, item: Item) {
    |text| > 0 && forall rest :: read(text + rest) == (item, rest)
  }

  lemma {:induction false} JoinedReads(read: Reader, texts: seq<seq<byte>>, items: seq<Item>, rest: seq<byte>)
    requires 0 < |texts| == |items| && forall k :: 0 <= k < |texts| ==> Reads(read, texts[k], items[k])
    ensures ReadAll(read, Joined(texts) + rest) == items + ReadAll(read, Behind(rest, 1))
    decreases |texts|
  {
    var n := |texts| - 1;
    var text, item := texts[n], items[n];
    OneRead(read, text, item, rest);
    if n == 0 {
      assert Joined(texts) + rest == text + rest && items == [item];
    } else {
      var before := Joined(texts[..n]);
      assert Joined(texts) + rest == before + (COMMA + (text + rest));
      JoinedReads(read, texts[..n], items[..n], COMMA + (text + rest));
      BehindPart(COMMA, text + rest);
      Regroup(items[..n], [item], ReadAll(read, Behind(rest, 1)));
      assert items == items[..n] + [item];
    }
  }

  lemma OneRead(read: Reader, text: seq<byte>, item: Item, rest: seq<byte>)
    requires Reads(read, text, item)
    ensures ReadAll(read, text + rest) == [item] + ReadAll(read, Behind(rest, 1))
  {
    assert read(text + rest) == (item, rest);
  }

  // ---- The whole excerpt ----

  /** The lines' beginnings that an excerpt shows: all of each but the last. */
  function Shown(log: seq<Entry>, from: nat, n: nat, kept: nat): (items: seq<Item>)
    requires n == 0 || from + n <= |log|
    requires kept <= Full(log, from, n)
  {
    seq(n, k requires 0 <= k < n =>
      var e := log[from + k]; Item(from + k, e.ts, e.line.msg[..ShownOf(log, from, n, kept, k)]))
  }

  /** A reader of a whole excerpt gets back the number, the time and the shown beginning of every line in it. */
  lemma ExcerptReadsBack(log: seq<Entry>, from: nat, n: nat, kept: nat, k: nat)
    requires if n == 0 then kept == 0 else from + n <= |log| && kept <= |log[from + n - 1].line.msg|
    ensures var items := ReadAll(ReadEntry, Excerpt(log, from, n, kept));
            |items| == n &&
            (k < n ==>
               var e := log[from + k];
               items[k] == Item(from + k, e.ts, if k < n - 1 then e.line.msg else e.line.msg[..kept]))
  {
    AllShown(log, from, n, kept);
    ShownLine(log, from, n, kept, k);
  }

  lemma ShownLine(log: seq<Entry>, from: nat, n: nat, kept: nat, k: nat)
    requires if n == 0 then kept == 0 else from + n <= |log| && kept <= |log[from + n - 1].line.msg|
    ensures var items := Shown(log, from, n, kept);
            |items| == n &&
            (k < n ==>
               var e := log[from + k];
               items[k] == Item(from + k, e.ts, if k < n - 1 then e.line.msg else e.line.msg[..kept]))
  {
    if k < n {
      var msg := log[from + k].line.msg;
      assert msg[..|msg|] == msg;
    }
  }

  /** So what the excerpt call leaves in the buffer shows whole lines, and cuts the last only at the buffer's end. */
  lemma FilledReadsBack(text: seq<byte>, cap: nat, log: seq<Entry>, from: nat, n: nat, kept: nat, k: nat)
    requires Filled(text, cap, log, from, n, kept)
    ensures |ReadAll(ReadEntry, text)| == n
    ensures k < n ==>
              var item, e := ReadAll(ReadEntry, text)[k], log[from + k];
              && item.number == from + k && item.ts == e.ts && item.msg <= e.line.msg
              && (k < n - 1 || |text| + 5 < cap ==> item.msg == e.line.msg)
  {
    AllShown(log, from, n, kept);
    ShownLine(log, from, n, kept, k);
    LastLineWhole(log, from, n, kept);
  }

  lemma LastLineWhole(log: seq<Entry>, from: nat, n: nat, kept: nat)
    requires n > 0 ==> from + n <= |log|
    ensures n > 0 && kept == |log[from + n - 1].line.msg| ==>
              log[from + n - 1].line.msg[..kept] == log[from + n - 1].line.msg
  {
  }

  lemma AllShown(log: seq<Entry>, from: nat, n: nat, kept: nat)
    requires (n == 0 || from + n <= |log|) && kept <= Full(log, from, n)
    ensures ReadAll(ReadEntry, Excerpt(log, from, n, kept)) == Shown(log, from, n, kept)
  {
    if n > 0 {
      var texts, items := EntryTexts(log, from, n, kept), Shown(log, from, n, kept);
      forall k | 0 <= k < n ensures Reads(ReadEntry, texts[k], items[k]) {
        EntryAlwaysReads(from + k, log[from + k], ShownOf(log, from, n, kept, k));
      }
      JoinedReads(ReadEntry, texts, items, []);
      assert Joined(texts) + [] == Joined(texts) && items + [] == items;
    }
  }

  lemma EntryAlwaysReads(number: nat, e: Entry, kept: nat)
    requires kept <= |e.line.msg|
    ensures Reads(ReadEntry, EntryText(number, e, kept), Item(number, e.ts, e.line.msg[..kept]))
  {
    forall rest ensures ReadEntry(EntryText(number, e, kept) + rest) == (Item(number, e.ts, e.line.msg[..kept]), rest) {
      EntryReads(number, e, kept, rest);
    }
    assert |EntryText(number, e, kept)| >= |CLOSE|;
  }
}
