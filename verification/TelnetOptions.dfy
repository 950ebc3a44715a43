/**
 Answering telnet option requests: which ones are agreed to, who gets the serial line by asking, and
 how long two ends that both answer this way go on talking.
 */
module TelnetOptions {
  import opened Bytes
  import opened TelnetCodec

  const BINARY: byte := 0
  const SGA: byte := 3
  const COMPORT: byte := 44

  /** The verb of the answer, if there is one; it names the option that was asked about. */
  function Reply(cmd: byte, opt: byte): (verb: Option<byte>) {
    if opt == COMPORT || opt == SGA || opt == BINARY then
      if cmd == WILL then Some(DO) else if cmd == DO then Some(WILL) else None
    else
      if cmd == WILL then Some(DONT) else if cmd == DO then Some(WONT) else None
  }

  class Line {
    var owned: bool            // some client controls the serial line
    ghost var wire: seq<byte>  // sent so far

    constructor ()
      ensures !owned && wire == []
    {
      owned, wire := false, [];
    }

    /** One request: at most one answer, and the line goes to the first client whose COM-PORT request is agreed to. */
    method Negotiate(cmd: byte, opt: byte) returns (acquired: bool)
      modifies this
      ensures wire == old(wire) + (if Reply(cmd, opt).Some? then [0xFF, Reply(cmd, opt).value, opt] else [])
      ensures acquired <==> opt == 44 && (cmd == 0xFB || cmd == 0xFD) && !old(owned)
      ensures owned <==> old(owned) || acquired
    {
      acquired := false;
      var verb: byte;
      if opt == COMPORT || opt == SGA || opt == BINARY {
        if cmd == WILL {
          verb := DO;
        } else if cmd == DO {
          verb := WILL;
        } else {
          return;
        }
        wire := wire + [IAC, verb, opt];
        if opt == COMPORT && !owned {
          owned, acquired := true, true;
        }
        return;
      }
      // echo, as every other option, is refused
      if cmd == DO {
        verb := WONT;
      } else if cmd == WILL {
        verb := DONT;
      } else {
        return;
      }
      wire := wire + [IAC, verb, opt];
    }
  }

  /**
   A request is answered in kind, WILL or WONT to a DO, DO or DONT to a WILL, and a refusal is not answered;
   what is agreed to are binary, suppress-go-ahead and COM-PORT.
   */
  lemma AnsweredInKind(cmd: byte, opt: byte)
    ensures Reply(cmd, opt).Some? <==> cmd in {0xFB, 0xFD}
    ensures cmd == 0xFB ==> Reply(cmd, opt) == Some(if opt in {0, 3, 44} then 0xFD else 0xFE)
    ensures cmd == 0xFD ==> Reply(cmd, opt) == Some(if opt in {0, 3, 44} then 0xFB else 0xFC)
  {
  }

  /** Of two ends that both answer this way, one has asked: does the talk last for `n` answers? */
  predicate GoesOn(cmd: byte, opt: byte, n: nat)
    decreases n
  {
    n == 0 || (Reply(cmd, opt).Some? && GoesOn(Reply(cmd, opt).value, opt, n - 1))
  }

  /**
   The answers alone do not make the talk end: two such ends never stop exactly when the option is one
   they agree to; any other request is over after one answer.  It is for a peer not to answer what it asked.
   */
  lemma {:induction false} EndlessExactly(cmd: byte, opt: byte, n: nat)
    ensures cmd in {0xFB, 0xFD} && opt in {0, 3, 44} ==> GoesOn(cmd, opt, n)
    ensures cmd in {0xFB, 0xFD} && opt !in {0, 3, 44} ==> (GoesOn(cmd, opt, n) <==> n <= 1)
    ensures cmd !in {0xFB, 0xFD} ==> (GoesOn(cmd, opt, n) <==> n == 0)
    decreases n
  {
    if n > 0 && Reply(cmd, opt).Some? {
      EndlessExactly(Reply(cmd, opt).value, opt, n - 1);
    }
  }
}
