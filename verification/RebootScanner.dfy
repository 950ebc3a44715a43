/**
 Spotting the radio's "ESP-ROM:" boot banner in the byte stream, across chunk borders, and the
 debounced client drop that follows.
 */
module RebootScanner {
  import opened Bytes

  const BANNER: seq<byte> := [0x45, 0x53, 0x50, 0x2D, 0x52, 0x4F, 0x4D, 0x3A]
  const DEBOUNCE_US := 2000000

  // ---- What "the banner was seen" means ----

  /** The first `k` banner bytes are the last `k` bytes of the stream. */
  ghost predicate EndsWith(stream: seq<byte>, k: nat)
    requires k <= |BANNER|
  {
    k <= |stream| && stream[|stream| - k..] == BANNER[..k]
  }

  /** The banner ends exactly after the stream's last byte. */
  ghost predicate Occurs(stream: seq<byte>) {
    |stream| >= 8 && stream[|stream| - 8..] == Ascii("ESP-ROM:")
  }

  lemma OccursAtItsEnd(stream: seq<byte>)
    ensures Occurs(stream) <==> EndsWith(stream, |BANNER|)
  {
    assert BANNER[..8] == BANNER == Ascii("ESP-ROM:");
  }

  // ---- The automaton with the source's one-byte fallback ----

  function Advance(matched: nat, b: byte): (m: nat)
    requires matched < |BANNER|
    ensures m <= |BANNER|
  {
    if b == BANNER[matched] then matched + 1 else if b == BANNER[0] then 1 else 0
  }

  /** After a full match the count restarts at zero. */
  function Matched(stream: seq<byte>): (m: nat)
    ensures m < |BANNER|
  {
    if |stream| == 0 then 0
    else
      var n := |stream| - 1;
      var m := Advance(Matched(stream[..n]), stream[n]);
      if m == |BANNER| then 0 else m
  }

  predicate Hit(stream: seq<byte>) {
    |stream| > 0 && Advance(Matched(stream[..|stream| - 1]), stream[|stream| - 1]) == |BANNER|
  }

  // ---- The fallback is exact for this banner ----

  lemma EndsWithOneMore(stream: seq<byte>, b: byte, k: nat)
    requires k < |BANNER|
    ensures EndsWith(stream + [b], k + 1) <==> EndsWith(stream, k) && b == BANNER[k]
  {
    var longer := stream + [b];
    if k + 1 <= |longer| {
      assert longer[|longer| - (k + 1)..] == stream[|stream| - k..] + [b];
      assert BANNER[..k + 1] == BANNER[..k] + [BANNER[k]];
      if EndsWith(longer, k + 1) {
        var tail := longer[|longer| - (k + 1)..];
        assert tail[..k] == stream[|stream| - k..] && tail[k] == b;
        assert BANNER[..k + 1][..k] == BANNER[..k];
      }
    }
  }

  /** Only the whole banner and the empty string are borders: its first byte occurs in it once. */
  lemma TwoMatchesNest(stream: seq<byte>, j: nat, k: nat)
    requires j < k <= |BANNER| && EndsWith(stream, j) && EndsWith(stream, k)
    ensures j == 0
  {
    Border(BANNER, stream, j, k);
  }

  /** Where a shorter match nests in a longer one, the pattern's first byte recurs in it. */
  lemma Border(pattern: seq<byte>, stream: seq<byte>, j: nat, k: nat)
    requires j < k <= |pattern| && k <= |stream|
    requires stream[|stream| - j..] == pattern[..j] && stream[|stream| - k..] == pattern[..k]
    ensures j > 0 ==> pattern[0] == pattern[k - j]
  {
    var n := |stream|;
    if j > 0 {
      assert stream[n - j] == stream[n - j..][0] == pattern[..j][0];
      assert stream[n - j] == stream[n - k..][k - j] == pattern[..k][k - j];
    }
  }

  /**
   The automaton's count is the longest proper banner prefix the stream ends with, and it reports a
   hit exactly at the end of each occurrence.
   */
  lemma {:induction false} ScannerIsExact(stream: seq<byte>)
    ensures EndsWith(stream, Matched(stream))
    ensures forall k :: Matched(stream) < k < |BANNER| ==> !EndsWith(stream, k)
    ensures Hit(stream) <==> Occurs(stream)
  {
    OccursAtItsEnd(stream);
    if |stream| > 0 {
      var before, b := stream[..|stream| - 1], stream[|stream| - 1];
      assert stream == before + [b];
      ScannerIsExact(before);
      var m := Matched(before);
      forall k | 1 <= k <= |BANNER|
        ensures EndsWith(stream, k) <==> b == BANNER[k - 1] && (k == 1 || k - 1 == m)
      {
        MatchOneMore(before, b, m, k);
      }
    }
  }

  lemma MatchOneMore(before: seq<byte>, b: byte, m: nat, k: nat)
    requires m < |BANNER| && EndsWith(before, m) && 1 <= k <= |BANNER|
    requires forall j :: m < j < |BANNER| ==> !EndsWith(before, j)
    ensures EndsWith(before + [b], k) <==> b == BANNER[k - 1] && (k == 1 || k - 1 == m)
  {
    EndsWithOneMore(before, b, k - 1);
    assert EndsWith(before, 0);
    if EndsWith(before, k - 1) && k - 1 < m {
      TwoMatchesNest(before, k - 1, m);
    }
  }

  // ---- The scanner itself ----

  /** Times at which clients are dropped, oldest first, given when each byte was processed. */
  function Drops(stream: seq<byte>, times: seq<int>): (d: seq<int>)
    requires |times| == |stream|
  {
    if |stream| == 0 then []
    else
      var n := |stream| - 1;
      var d := Drops(stream[..n], times[..n]);
      if Hit(stream) && times[n] - LastDrop(d) >= DEBOUNCE_US then d + [times[n]] else d
  }

  /** The stored time of the last drop; it starts at 0, the moment of boot. */
  function LastDrop(d: seq<int>): (t: int) {
    if |d| == 0 then 0 else d[|d| - 1]
  }

  class Scanner {
    var matched: nat
    var lastHitUs: int
    ghost var stream: seq<byte>
    ghost var times: seq<int>
    ghost var dropped: seq<int>

    ghost predicate Valid()
      reads this
    {
      && |times| == |stream|
      && matched == Matched(stream)
      && dropped == Drops(stream, times)
      && lastHitUs == LastDrop(dropped)
    }

    constructor ()
      ensures Valid() && stream == [] && dropped == []
    {
      matched, lastHitUs, stream, times, dropped := 0, 0, [], [], [];
    }

    method ScanByte(b: byte, now: int)
      requires Valid()
      modifies this
      ensures Valid() && stream == old(stream) + [b] && times == old(times) + [now]
    {
      ghost var longer, later := stream + [b], times + [now];
      assert longer[..|stream|] == stream && later[..|stream|] == times;
      if b == BANNER[matched] {
        matched := matched + 1;
        if matched == |BANNER| {
          matched := 0;
          if now - lastHitUs >= DEBOUNCE_US {
            lastHitUs := now;
            dropped := dropped + [now];
          }
        }
      } else {
        matched := if b == BANNER[0] then 1 else 0;
      }
      stream, times := longer, later;
    }

    /** One chunk; `clock[i]` is what the timer reads while byte `i` is processed. */
    method Scan(buf: seq<byte>, clock: seq<int>)
      requires Valid() && |clock| == |buf|
      modifies this
      ensures Valid()
      ensures stream == old(stream) + buf && times == old(times) + clock
      ensures dropped == Drops(stream, times)
    {
      var i := 0;
      while i < |buf|
        invariant 0 <= i <= |buf| && Valid()
        invariant stream == old(stream) + buf[..i] && times == old(times) + clock[..i]
      {
        ScanByte(buf[i], clock[i]);
        i := i + 1;
      }
    }
  }

  /** Drops are never closer than two seconds, and none falls into the first two seconds after boot. */
  lemma {:induction false} DropsAreSpaced(stream: seq<byte>, times: seq<int>)
    requires |times| == |stream|
    ensures var d := Drops(stream, times);
            (forall i :: 0 <= i < |d| - 1 ==> d[i + 1] - d[i] >= 2_000_000) &&
            (|d| > 0 ==> d[0] >= 2_000_000)
  {
    if |stream| > 0 {
      var n := |stream| - 1;
      DropsAreSpaced(stream[..n], times[..n]);
    }
  }

  /** Every drop is caused by a complete banner, and a banner is ignored exactly when it comes too soon. */
  lemma DropExactlyAtFreshBanner(stream: seq<byte>, times: seq<int>)
    requires |times| == |stream| && |stream| > 0
    ensures var n := |stream| - 1; var before := Drops(stream[..n], times[..n]);
            var last := if before == [] then 0 else before[|before| - 1];
            Drops(stream, times) ==
            if Occurs(stream) && times[n] - last >= 2_000_000 then before + [times[n]] else before
  {
    ScannerIsExact(stream);
  }
}
