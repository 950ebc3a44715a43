/**
 NOR flash under a failing supply.  Erasing sets a whole 4 KB sector to 0xFF, programming ANDs
 bytes in; both go in ascending order.  `power` is the number of sector erases and byte programs
 that still land: when it reaches 0 nothing changes any more, which is how a crash or a driver
 error at any point between two flash steps is modelled.
 */
module NorFlash {

  const SECTOR := 4096

  type cell = bv8
  const BLANK: cell := 0xFF

  /** `s` with everything below `n` blank. */
  function ErasedTo(s: seq<cell>, n: nat): (r: seq<cell>)
    ensures |r| == |s|
  {
    seq(|s|, i requires 0 <= i < |s| => if i < n then BLANK else s[i])
  }

  /** `s` with `data` programmed at `off`. */
  function Programmed(s: seq<cell>, off: nat, data: seq<cell>): (r: seq<cell>)
    ensures |r| == |s|
  {
    seq(|s|, i requires 0 <= i < |s| => if off <= i < off + |data| then s[i] & data[i - off] else s[i])
  }

  lemma ProgramOneMore(s: seq<cell>, off: nat, data: seq<cell>, k: nat)
    requires k < |data| && off + |data| <= |s|
    ensures Programmed(s, off, data[..k])[off + k] == s[off + k]
    ensures Programmed(s, off, data[..k + 1])
         == Programmed(s, off, data[..k])[off + k := s[off + k] & data[k]]
  {
  }

  /** Erased cells are 0xFF, programming can only clear bits, and what was erased takes the data as it is. */
  lemma EraseThenProgram(s: seq<cell>, n: nat, off: nat, data: seq<cell>, i: nat)
    requires i < |s|
    ensures ErasedTo(s, n)[i] == if i < n then 0xFF else s[i]
    ensures Programmed(s, off, data)[i] & s[i] == Programmed(s, off, data)[i]
    ensures !(off <= i < off + |data|) ==> Programmed(s, off, data)[i] == s[i]
    ensures off <= i < off + |data| && i < n ==> Programmed(ErasedTo(s, n), off, data)[i] == data[i - off]
  {
  }

  class Flash {
    const mem: array<cell>
    var power: nat

    constructor (size: nat)
      ensures fresh(mem) && mem.Length == size
      ensures forall i :: 0 <= i < size ==> mem[i] == BLANK
      ensures power == 0
    {
      mem := new cell[size](_ => BLANK);
      power := 0;
    }

    method PowerUp(budget: nat)
      modifies this`power
      ensures power == budget
    {
      power := budget;
    }

    /** Erases [0, n) sector by sector; `done` sectors made it. */
    method Erase(n: nat) returns (done: nat)
      requires n <= mem.Length && n % 4096 == 0
      modifies this`power, mem
      ensures done * 4096 <= n && power == old(power) - done && (done * 4096 == n || power == 0)
      ensures mem[..] == ErasedTo(old(mem[..]), done * 4096)
    {
      done := 0;
      assert mem[..] == ErasedTo(old(mem[..]), 0);
      while done * SECTOR < n && power > 0
        invariant done * SECTOR <= n && power == old(power) - done
        invariant mem[..] == ErasedTo(old(mem[..]), done * SECTOR)
      {
        ghost var before := mem[..];
        forall i | done * SECTOR <= i < (done + 1) * SECTOR {
          mem[i] := BLANK;
        }
        done := done + 1;
        power := power - 1;
        assert mem[..] == ErasedTo(before, done * SECTOR);
      }
    }

    /** Programs `data` byte by byte; the first `landed` bytes made it. */
    method Write(off: nat, data: seq<cell>) returns (landed: nat)
      requires off + |data| <= mem.Length
      modifies this`power, mem
      ensures landed <= |data| && power == old(power) - landed && (landed == |data| || power == 0)
      ensures mem[..] == Programmed(old(mem[..]), off, data[..landed])
    {
      ghost var start := mem[..];
      landed := 0;
      assert start == Programmed(start, off, data[..0]);
      while landed < |data| && power > 0
        invariant landed <= |data| && power == old(power) - landed
        invariant mem[..] == Programmed(start, off, data[..landed])
      {
        ProgramOneMore(start, off, data, landed);
        ProgramCell(off + landed, data[landed]);
        landed := landed + 1;
        power := power - 1;
      }
    }

    method ProgramCell(i: nat, x: cell)
      requires i < mem.Length
      modifies mem
      ensures mem[..] == old(mem[..])[i := old(mem[i]) & x]
    {
      mem[i] := mem[i] & x;
    }

    /** The one write that is assumed to land whole or not at all. */
    method WriteAtomic(off: nat, data: seq<cell>) returns (landed: bool)
      requires off + |data| <= mem.Length
      modifies this`power, mem
      ensures landed <==> old(power) > 0
      ensures power == if landed then old(power) - 1 else 0
      ensures mem[..] == if landed then Programmed(old(mem[..]), off, data) else old(mem[..])
    {
      landed := power > 0;
      if landed {
        power := power - 1;
        forall i | off <= i < off + |data| {
          mem[i] := mem[i] & data[i - off];
        }
        assert mem[..] == Programmed(old(mem[..]), off, data);
      }
    }
  }
}
