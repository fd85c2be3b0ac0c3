/** The states a tracked TCP connection goes through, told by the packets it has seen. */
module TcpHandshake {
  import opened ConnTable
  import opened TcpTheory

  /** The state of an entry that was created CLOSED and has seen these packets since. */
  function StateAfter(ks: seq<Kind>): TcpState {
    if ks == [] then Closed else NextState(StateAfter(ks[..|ks| - 1]), ks[|ks| - 1])
  }

  predicate Restarts(k: Kind) {
    k == PureSyn || k == Rst
  }

  /** The last pure SYN or RST; -1 when there was none. */
  function LastRestart(ks: seq<Kind>): (i: int)
    ensures -1 <= i < |ks|
    ensures i >= 0 ==> Restarts(ks[i])
    ensures forall j :: i < j < |ks| ==> !Restarts(ks[j])
  {
    if ks == [] then -1
    else if Restarts(ks[|ks| - 1]) then |ks| - 1
    else LastRestart(ks[..|ks| - 1])
  }

  /** The last packet that restarted the connection was a pure SYN. */
  ghost predicate Opened(ks: seq<Kind>) {
    LastRestart(ks) >= 0 && ks[LastRestart(ks)] == PureSyn
  }

  /** After position i a SYN+ACK came. */
  ghost predicate Answered(ks: seq<Kind>, i: int) {
    exists a :: 0 <= i < a < |ks| && ks[a] == SynAck
  }

  /** After position i a SYN+ACK came, and later an ACK. */
  ghost predicate Confirmed(ks: seq<Kind>, i: int) {
    exists a, b :: 0 <= i < a < b < |ks| && ks[a] == SynAck && ks[b] == Ack
  }

  /** After position i a SYN+ACK came, later an ACK, and later a FIN. */
  ghost predicate Finished(ks: seq<Kind>, i: int) {
    exists a, b, c :: 0 <= i < a < b < c < |ks| && ks[a] == SynAck && ks[b] == Ack && ks[c] == Fin
  }

  lemma OneMoreAnswered(ks: seq<Kind>, k: Kind, i: int)
    requires 0 <= i < |ks|
    ensures Answered(ks + [k], i) <==> Answered(ks, i) || k == SynAck
  {
    if a :| 0 <= i < a < |ks| && ks[a] == SynAck {
      assert (ks + [k])[a] == SynAck;
    }
    if k == SynAck {
      assert (ks + [k])[|ks|] == SynAck;
    }
  }

  lemma OneMoreConfirmed(ks: seq<Kind>, k: Kind, i: int)
    requires 0 <= i < |ks|
    ensures Confirmed(ks + [k], i) <==> Confirmed(ks, i) || (Answered(ks, i) && k == Ack)
  {
    var more := ks + [k];
    if a, b :| 0 <= i < a < b < |ks| && ks[a] == SynAck && ks[b] == Ack {
      assert more[a] == SynAck && more[b] == Ack;
    }
    if a :| 0 <= i < a < |ks| && ks[a] == SynAck && k == Ack {
      assert more[a] == SynAck && more[|ks|] == Ack;
    }
  }

  lemma OneMoreFinished(ks: seq<Kind>, k: Kind, i: int)
    requires 0 <= i < |ks|
    ensures Finished(ks + [k], i) <==> Finished(ks, i) || (Confirmed(ks, i) && k == Fin)
  {
    var more := ks + [k];
    if a, b, c :| 0 <= i < a < b < c < |ks| && ks[a] == SynAck && ks[b] == Ack && ks[c] == Fin {
      assert more[a] == SynAck && more[b] == Ack && more[c] == Fin;
    }
    if a, b :| 0 <= i < a < b < |ks| && ks[a] == SynAck && ks[b] == Ack && k == Fin {
      assert more[a] == SynAck && more[b] == Ack && more[|ks|] == Fin;
    }
  }

  lemma NothingYet(ks: seq<Kind>, i: int)
    requires i == |ks| - 1
    ensures !Answered(ks, i) && !Confirmed(ks, i) && !Finished(ks, i)
  {
  }

  /** What the packets since the entry was created say about its state. */
  ghost function Told(ks: seq<Kind>): TcpState {
    var i := LastRestart(ks);
    if !Opened(ks) then Closed
    else if Finished(ks, i) then FinWait
    else if Confirmed(ks, i) then Established
    else if Answered(ks, i) then SynReceived
    else SynSent
  }

  /** A connection is ESTABLISHED exactly when its last restart was a pure SYN, after which a SYN+ACK
      and later an ACK came and no FIN after them; a FIN after them makes it FIN_WAIT. Every other
      state is told in the same way, and CLOSE_WAIT is never reached. */
  lemma {:induction false} StateIsTold(ks: seq<Kind>)
    ensures StateAfter(ks) == Told(ks)
    ensures StateAfter(ks) != CloseWait
  {
    hide Answered, Confirmed, Finished;
    if ks != [] {
      var rest, k := ks[..|ks| - 1], ks[|ks| - 1];
      assert ks == rest + [k];
      StateIsTold(rest);
      var i := LastRestart(rest);
      if Restarts(k) {
        NothingYet(ks, |ks| - 1);
      } else if i >= 0 {
        OneMoreAnswered(rest, k, i);
        OneMoreConfirmed(rest, k, i);
        OneMoreFinished(rest, k, i);
        Chained(rest, i);
      }
    }
  }

  lemma Chained(ks: seq<Kind>, i: int)
    ensures Finished(ks, i) ==> Confirmed(ks, i)
    ensures Confirmed(ks, i) ==> Answered(ks, i)
  {
  }
}
