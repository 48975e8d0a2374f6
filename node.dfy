/**
 * One node of the ring: the capability table and the node's own file and
 * token flags (module-level state in the source), the three phases a
 * transmitter runs, the transmitter role as a whole, and one receiver step.
 */
module Node {
  import opened Wire
  import opened Wrappers
  import opened CapabilityTable
  import opened StatusExchange
  import opened FileDistribution
  import opened TokenRotation
  import opened Receiver

  //------------------------------------------------------------------
  // The transmitter role as a function of its inputs
  //------------------------------------------------------------------

  /** The first rotation attempt, at or after `from`, that passes the token. */
  function FirstPassing(tb: Table, attempts: seq<seq<bool>>, from: nat): (r: Option<nat>)
    requires forall j :: 0 <= j < |attempts| ==> |attempts[j]| == |tb|
    ensures r.Some? ==> from <= r.value < |attempts| && Rotate(tb, attempts[r.value]).passed
    ensures r.Some? ==> forall j :: from <= j < r.value ==> !Rotate(tb, attempts[j]).passed
    ensures r.None? ==> forall j :: from <= j < |attempts| ==> !Rotate(tb, attempts[j]).passed
    decreases |attempts| - from
  {
    if from >= |attempts| then None
    else if Rotate(tb, attempts[from]).passed then Some(from)
    else FirstPassing(tb, attempts, from + 1)
  }

  /**
   * How a transmitter turn ends: a truncated status reply stops the program,
   * every rotation attempt given fails (the source keeps retrying without
   * bound), or the token is handed off at some attempt.
   */
  datatype TurnEnd = Crashed | Stalled | HandedOff(attempt: nat)

  datatype Turn = Turn(end: TurnEnd, table: Table, sent: seq<Delivery>)

  /** The oracles fit the table each phase sees. */
  predicate TurnInputs(tb: Table, links: seq<Bytes>, probes: seq<Probe>, data: Bytes,
                       clock: seq<nat>, attempts: seq<seq<bool>>)
  {
    |probes| == |links| &&
    |clock| == |StatusRound(tb, links, probes).table| &&
    forall j :: 0 <= j < |attempts| ==>
      |attempts[j]| == |Distribute(StatusRound(tb, links, probes).table, NumChunks(|data|), clock)|
  }

  /** Status exchange, then file distribution, then token rotation until it passes. */
  function TransmitterTurn(tb: Table, links: seq<Bytes>, probes: seq<Probe>, data: Bytes,
                           clock: seq<nat>, attempts: seq<seq<bool>>): Turn
    requires TurnInputs(tb, links, probes, data, clock, attempts)
  {
    match StatusRound(tb, links, probes)
    case Aborted(t) => Turn(Crashed, t, [])
    case Completed(t) =>
      var kept := Distribute(t, NumChunks(|data|), clock);
      var sent := Sent(t, data, clock);
      match FirstPassing(kept, attempts, 0)
      case None => Turn(Stalled, kept, sent)
      case Some(j) => Turn(HandedOff(j), Rotate(kept, attempts[j]).table, sent)
  }

  /** A whole transmitter turn keeps the table's addresses unique. */
  lemma TurnKeepsUnique(tb: Table, links: seq<Bytes>, probes: seq<Probe>, data: Bytes,
                        clock: seq<nat>, attempts: seq<seq<bool>>)
    requires TurnInputs(tb, links, probes, data, clock, attempts) && UniqueAddresses(tb)
    ensures UniqueAddresses(TransmitterTurn(tb, links, probes, data, clock, attempts).table)
  {
    RoundKeepsUnique(tb, links, probes);
    var t := StatusRound(tb, links, probes).table;
    DistributeKeeps(t, NumChunks(|data|), clock);
    var kept := Distribute(t, NumChunks(|data|), clock);
    var j := FirstPassing(kept, attempts, 0);
    if StatusRound(tb, links, probes).Completed? && j.Some? {
      RotateSpec(kept, attempts[j.value]);
    }
  }

  /**
   * Two rows lacking the file, A with Token 0 then B with Token 1; no status
   * query is acknowledged, every chunk goes through, and both acknowledge the
   * token: both get the whole transfer, A first, and A takes the token and
   * moves to the tail. The table still says neither has the file and A's
   * Token byte is still 0.
   */
  lemma TwoPeerTurn(a: Bytes, b: Bytes, links: seq<Bytes>, data: Bytes)
    requires a != b
    ensures var tb := [Peer(a, 0, 0), Peer(b, 0, 1)];
      var probes := seq(|links|, _ => NoAck);
      var clock := [NumChunks(|data|), NumChunks(|data|)];
      TurnInputs(tb, links, probes, data, clock, [[true, true]]) &&
      TransmitterTurn(tb, links, probes, data, clock, [[true, true]]) ==
        Turn(HandedOff(0), [Peer(b, 0, 1), Peer(a, 0, 0)],
             Addressed(a, Transmission(data)) + Addressed(b, Transmission(data)))
  {
    var tb := [Peer(a, 0, 0), Peer(b, 0, 1)];
    var probes := seq(|links|, _ => NoAck);
    var n := NumChunks(|data|);
    var clock := [n, n];
    SilentRoundChangesNothing(tb, links, probes);
    TwoPeerKept(a, b, n);
    TwoPeerSent(Peer(a, 0, 0), Peer(b, 0, 1), data);
    TwoPeerRotation(a, b);
  }

  /** Two rows lacking the file, both with every chunk through: both are kept. */
  lemma TwoPeerKept(a: Bytes, b: Bytes, chunks: nat)
    ensures Distribute([Peer(a, 0, 0), Peer(b, 0, 1)], chunks, [chunks, chunks]) == [Peer(a, 0, 0), Peer(b, 0, 1)]
  {
    var tb := [Peer(a, 0, 0), Peer(b, 0, 1)];
    var clock := [chunks, chunks];
    DistributeStep(tb, chunks, clock, 0);
    DistributeStep(tb, chunks, clock, 1);
    assert tb[..0] == [] && clock[..0] == [];
    assert tb[..2] == tb && clock[..2] == clock;
  }

  /** Two rows lacking the file, both with every chunk through: both get the whole transfer, in order. */
  lemma {:induction false} TwoPeerSent(p: Peer, q: Peer, data: Bytes)
    requires p.file == 0 && q.file == 0
    ensures Sent([p, q], data, [NumChunks(|data|), NumChunks(|data|)]) ==
      Addressed(p.address, Transmission(data)) + Addressed(q.address, Transmission(data))
  {
    var tb := [p, q];
    var n := NumChunks(|data|);
    var clock := [n, n];
    SentStep(tb, data, clock, 0);
    SentStep(tb, data, clock, 1);
    assert tb[..0] == [] && clock[..0] == [];
    assert tb[..2] == tb && clock[..2] == clock;
  }

  /** Distribution over the first r + 1 rows, one row more than over the first r. */
  lemma DistributeStep(rows: Table, chunks: nat, clock: seq<nat>, r: nat)
    requires |clock| == |rows| && r < |rows|
    ensures Distribute(rows[..r + 1], chunks, clock[..r + 1]) ==
      Distribute(rows[..r], chunks, clock[..r]) + (if Evicted(rows[r], chunks, clock[r]) then [] else [rows[r]])
  {
    var rs, cs := rows[..r + 1], clock[..r + 1];
    assert rs[..r] == rows[..r] && cs[..r] == clock[..r];
    assert rs[r] == rows[r] && cs[r] == clock[r];
    assert |rs| - 1 == r;
  }

  /** The frames offered to the first r + 1 rows, one row more than to the first r. */
  lemma SentStep(rows: Table, data: Bytes, clock: seq<nat>, r: nat)
    requires |clock| == |rows| && r < |rows|
    ensures Sent(rows[..r + 1], data, clock[..r + 1]) ==
      Sent(rows[..r], data, clock[..r]) +
        (if rows[r].file == 0 then Addressed(rows[r].address, Offered(data, clock[r])) else [])
  {
    var rs, cs := rows[..r + 1], clock[..r + 1];
    assert rs[..r] == rows[..r] && cs[..r] == clock[..r];
    assert rs[r] == rows[r] && cs[r] == clock[r];
    assert |rs| - 1 == r;
  }

  /**
   * The locals of SendFile after its first r rows: the table, the number of
   * rows kept so far, and the frames offered so far.
   */
  ghost function Served(rows: Table, data: Bytes, clock: seq<nat>, r: nat): (s: (Table, nat, seq<Delivery>))
    requires |clock| == |rows| && r <= |rows|
    ensures |s.0| == s.1 + (|rows| - r)
  {
    if r == 0 then (rows, 0, [])
    else
      var (t, kept, sent) := Served(rows, data, clock, r - 1);
      var row := rows[r - 1];
      if row.file != 0 then (t, kept + 1, sent)
      else
        var sent' := sent + Addressed(row.address, Offered(data, clock[r - 1]));
        if Evicted(row, NumChunks(|data|), clock[r - 1]) then (Remove(t, kept), kept, sent')
        else (t, kept + 1, sent')
  }

  /** Served agrees with the specification of the table and of the frames. */
  lemma {:induction false} ServedSpec(rows: Table, data: Bytes, clock: seq<nat>, r: nat)
    requires |clock| == |rows| && r <= |rows|
    ensures Served(rows, data, clock, r).0 == Distribute(rows[..r], NumChunks(|data|), clock[..r]) + rows[r..]
    ensures Served(rows, data, clock, r).1 == |Distribute(rows[..r], NumChunks(|data|), clock[..r])|
    ensures Served(rows, data, clock, r).2 == Sent(rows[..r], data, clock[..r])
  {
    if r > 0 {
      ServedSpec(rows, data, clock, r - 1);
      SentStep(rows, data, clock, r - 1);
      if Evicted(rows[r - 1], NumChunks(|data|), clock[r - 1]) {
        DropStep(rows, data, clock, r - 1);
      } else {
        KeepStep(rows, data, clock, r - 1);
      }
    }
  }

  /** Once SendFile has been over every row, its locals are the distribution and the frames offered. */
  lemma ServedAll(rows: Table, data: Bytes, clock: seq<nat>)
    requires |clock| == |rows|
    ensures Served(rows, data, clock, |rows|).0 == Distribute(rows, NumChunks(|data|), clock)
    ensures Served(rows, data, clock, |rows|).2 == Sent(rows, data, clock)
    ensures UniqueAddresses(rows) ==> UniqueAddresses(Distribute(rows, NumChunks(|data|), clock))
  {
    ServedSpec(rows, data, clock, |rows|);
    assert rows[..|rows|] == rows && clock[..|clock|] == clock;
    if UniqueAddresses(rows) {
      DistributeKeeps(rows, NumChunks(|data|), clock);
    }
  }

  /** A row SendFile evicts leaves the table: the rows kept so far are unchanged. */
  lemma DropStep(rows: Table, data: Bytes, clock: seq<nat>, r: nat)
    requires |clock| == |rows| && r < |rows| && Evicted(rows[r], NumChunks(|data|), clock[r])
    ensures var pre := Distribute(rows[..r], NumChunks(|data|), clock[..r]);
      Distribute(rows[..r + 1], NumChunks(|data|), clock[..r + 1]) == pre &&
      Remove(pre + rows[r..], |pre|) == pre + rows[r + 1..]
  {
    DistributeStep(rows, NumChunks(|data|), clock, r);
    var pre := Distribute(rows[..r], NumChunks(|data|), clock[..r]);
    assert rows[r..] == [rows[r]] + rows[r + 1..];
    assert (pre + rows[r..])[..|pre|] == pre;
    assert (pre + rows[r..])[|pre| + 1..] == rows[r + 1..];
  }

  /** A row SendFile keeps joins the rows kept so far. */
  lemma KeepStep(rows: Table, data: Bytes, clock: seq<nat>, r: nat)
    requires |clock| == |rows| && r < |rows| && !Evicted(rows[r], NumChunks(|data|), clock[r])
    ensures var pre := Distribute(rows[..r], NumChunks(|data|), clock[..r]);
      Distribute(rows[..r + 1], NumChunks(|data|), clock[..r + 1]) == pre + [rows[r]] &&
      pre + rows[r..] == (pre + [rows[r]]) + rows[r + 1..]
  {
    DistributeStep(rows, NumChunks(|data|), clock, r);
    var pre := Distribute(rows[..r], NumChunks(|data|), clock[..r]);
    assert rows[r..] == [rows[r]] + rows[r + 1..];
    assert pre + ([rows[r]] + rows[r + 1..]) == (pre + [rows[r]]) + rows[r + 1..];
  }

  //------------------------------------------------------------------
  // The node and its phases
  //------------------------------------------------------------------

  class Node {
    /** The capability table. */
    var tb: Table
    /** The node's own flags, sent in its status replies. */
    var file: byte
    var token: byte

    ghost predicate Valid()
      reads this
    {
      UniqueAddresses(tb)
    }

    /** A node starts with an empty table and both flags 0. */
    constructor ()
      ensures Valid() && tb == [] && file == 0 && token == 0
    {
      tb := [];
      file := 0;
      token := 0;
    }

    /**
     * Query every link address in order and record each status reply;
     * stops, reporting false, at a truncated reply.
     */
    method SendStatus(links: seq<Bytes>, probes: seq<Probe>) returns (completed: bool)
      requires Valid() && |probes| == |links|
      modifies this
      ensures Valid()
      ensures completed == StatusRound(old(tb), links, probes).Completed?
      ensures tb == StatusRound(old(tb), links, probes).table
      ensures file == old(file) && token == old(token)
    {
      RoundKeepsUnique(tb, links, probes);
      var i := 0;
      while i < |links|
        invariant 0 <= i <= |links|
        invariant StatusRound(tb, links[i..], probes[i..]) == StatusRound(old(tb), links, probes)
        invariant file == old(file) && token == old(token)
      {
        assert links[i..][1..] == links[i + 1..] && probes[i..][1..] == probes[i + 1..];
        var address := links[i];
        match probes[i] {
          case Answer(answer) =>
            if |answer| == 0 {
              return false;
            }
            if answer[0] == HeaderStatusReply {
              if |answer| < 3 {
                return false;
              }
              tb := Upsert(tb, address, answer[1], answer[2]);
            }
          case _ =>
        }
        i := i + 1;
      }
      return true;
    }

    /**
     * Send the file to every row lacking it, walking a snapshot of the table;
     * a row whose clock expires during a data chunk is dropped at once.
     * Returns every frame put on the air.
     */
    method SendFile(data: Bytes, clock: seq<nat>) returns (sent: seq<Delivery>)
      requires Valid() && |clock| == |tb|
      modifies this
      ensures Valid()
      ensures tb == Distribute(old(tb), NumChunks(|data|), clock)
      ensures sent == Sent(old(tb), data, clock)
      ensures file == old(file) && token == old(token)
    {
      var rows := tb;
      var kept := 0;
      sent := [];
      var r := 0;
      while r < |rows|
        invariant 0 <= r <= |rows|
        invariant tb == Served(rows, data, clock, r).0
        invariant kept == Served(rows, data, clock, r).1
        invariant sent == Served(rows, data, clock, r).2
        invariant file == old(file) && token == old(token)
      {
        var row := rows[r];
        if row.file == 0 {
          var out, timedOut := Transfer(data, clock[r]);
          if timedOut {
            tb := Remove(tb, kept);
          } else {
            kept := kept + 1;
          }
          sent := sent + Addressed(row.address, out);
        } else {
          kept := kept + 1;
        }
        r := r + 1;
      }
      ServedAll(rows, data, clock);
    }

    /**
     * Hand the token to the first acknowledging row with Token 0, when there
     * is one, else to the first acknowledging row with Token 1; the row is
     * dropped and appended again as it was read.
     */
    method SendToken(acked: seq<bool>) returns (passed: bool)
      requires Valid() && |acked| == |tb|
      modifies this
      ensures Valid()
      ensures passed == Rotate(old(tb), acked).passed
      ensures tb == Rotate(old(tb), acked).table
      ensures file == old(file) && token == old(token)
    {
      var rows := tb;
      RotateSpec(rows, acked);
      passed := false;
      if HasTier(rows, Fresh) {
        passed := TryTier(rows, acked, Fresh);
      }
      assert passed ==> Choose(rows, acked) == FirstAcked(rows, acked, Fresh, 0);
      assert !passed ==> Choose(rows, acked) == FirstAcked(rows, acked, Held, 0);
      if !passed {
        passed := TryTier(rows, acked, Held);
      }
      assert passed == Choose(rows, acked).Some?;
    }

    /**
     * One tier's scan: try the rows of the tier in order until one
     * acknowledges; it is dropped and appended again from the copy taken
     * before the scan looked at it, so in Tier A the mark it gets in place
     * is lost with it.
     */
    method TryTier(rows: Table, acked: seq<bool>, tier: byte) returns (passed: bool)
      requires tb == rows && |acked| == |rows|
      modifies this
      ensures passed == FirstAcked(rows, acked, tier, 0).Some?
      ensures passed ==> tb == MoveToTail(rows, FirstAcked(rows, acked, tier, 0).value)
      ensures !passed ==> tb == rows
      ensures file == old(file) && token == old(token)
    {
      passed := false;
      var i := 0;
      while i < |rows| && !passed
        invariant 0 <= i <= |rows|
        invariant !passed ==> tb == rows && FirstAcked(rows, acked, tier, 0) == FirstAcked(rows, acked, tier, i)
        invariant passed ==> 1 <= i && FirstAcked(rows, acked, tier, 0) == Some(i - 1) && tb == MoveToTail(rows, i - 1)
        invariant file == old(file) && token == old(token)
      {
        var row := rows[i];
        var newRow := Peer(row.address, row.file, row.token);
        if row.token == tier {
          passed := acked[i];
          if passed {
            if tier == Fresh {
              tb := tb[i := Peer(row.address, row.file, Held)];
            }
            tb := tb[..i] + tb[i + 1..];
            tb := tb + [newRow];
          }
        }
        i := i + 1;
      }
    }

    /**
     * The transmitter role: set both own flags, run a status round, distribute
     * the file, then retry the rotation with the attempts given until one
     * passes the token.
     */
    method Transmit(links: seq<Bytes>, probes: seq<Probe>, data: Bytes,
                    clock: seq<nat>, attempts: seq<seq<bool>>) returns (t: Turn)
      requires Valid() && TurnInputs(tb, links, probes, data, clock, attempts)
      modifies this
      ensures Valid()
      ensures t == TransmitterTurn(old(tb), links, probes, data, clock, attempts)
      ensures tb == t.table
      ensures file == 1 && token == 1
    {
      file := 1;
      token := 1;
      var completed := SendStatus(links, probes);
      if !completed {
        return Turn(Crashed, tb, []);
      }
      var sent := SendFile(data, clock);
      var j := 0;
      while j < |attempts|
        invariant 0 <= j <= |attempts|
        invariant Valid() && file == 1 && token == 1
        invariant |clock| == |StatusRound(old(tb), links, probes).table|
        invariant tb == Distribute(StatusRound(old(tb), links, probes).table, NumChunks(|data|), clock)
        invariant FirstPassing(tb, attempts, 0) == FirstPassing(tb, attempts, j)
      {
        var passed := SendToken(attempts[j]);
        if passed {
          return Turn(HandedOff(j), tb, sent);
        }
        j := j + 1;
      }
      return Turn(Stalled, tb, sent);
    }

    /**
     * One receiver step: dispatch an inbound frame by its header. A query is
     * answered with the node's own flags; a file frame runs the reassembly loop
     * over the frames that follow, without touching the node's flags; the token
     * frame ends the receiver role.
     */
    method Handle(frame: Bytes, later: seq<Bytes>) returns (h: Handled)
      ensures Dispatch(frame) == AnswerStatus <==> h.Answered?
      ensures h.Answered? ==> h.answer == AnswerQuery(frame, file, token) &&
                              DecodeReply(h.answer.frame) == Reply(file, token)
      ensures Dispatch(frame) == CollectFile <==> h.Received?
      ensures h.Received? ==> h.reception == ReceiveSpec(frame, later)
      ensures h == TokenTaken <==> Dispatch(frame) == TakeToken
      ensures h == Ignored <==> Dispatch(frame) == Ignore
      ensures h == Unread <==> |frame| == 0
    {
      if |frame| == 0 {
        return Unread;
      }
      var header := frame[0];
      if header == HeaderStatus {
        DecodeReplyRoundTrip(file, token);
        h := Answered(AnswerQuery(frame, file, token));
      } else if header == HeaderFile {
        var reception := ReceiveFile(frame, later);
        h := Received(reception);
      } else if header == HeaderToken {
        h := TokenTaken;
      } else {
        h := Ignored;
      }
    }
  }

  /** What one receiver step did. */
  datatype Handled =
    | Answered(answer: StatusAnswer)
    | Received(reception: Reception)
    | TokenTaken
    | Ignored
    | Unread

  /**
   * The frames one transfer puts on the air for a peer whose clock lets
   * `clock` data chunks through; out-parameter `timedOut` says whether the
   * clock expired during a data chunk.
   */
  method Transfer(data: Bytes, clock: nat) returns (out: seq<Bytes>, timedOut: bool)
    ensures timedOut <==> clock < NumChunks(|data|)
    ensures out == Offered(data, clock)
  {
    var n := NumChunks(|data|);
    var packetId: byte := 0;
    out := [];
    timedOut := false;
    var i := 0;
    var k := 0;
    ChunkStart(|data|, 0);
    while i < |data| && !timedOut
      invariant 0 <= k <= n && i == k * ChunkSize
      invariant i < |data| <==> k < n
      invariant !timedOut ==> k <= clock && packetId == IdOf(k) && out == FileFrames(data)[..k]
      invariant timedOut ==> k == clock < n && out == FileFrames(data)[..k + 1]
      decreases n - k, if timedOut then 0 else 1
    {
      assert Chunk(data, k) == data[i..Min(i + ChunkSize, |data|)];
      var message := DataFrame(packetId, data[i..Min(i + ChunkSize, |data|)]);
      assert message == FileFrames(data)[k];
      assert FileFrames(data)[..k] + [message] == FileFrames(data)[..k + 1];
      out := out + [message];
      timedOut := k >= clock;
      if !timedOut {
        NextIdOf(k);
        packetId := NextId(packetId);
        ChunkStart(|data|, k + 1);
        i := i + ChunkSize;
        k := k + 1;
      }
    }
    if !timedOut {
      assert FileFrames(data)[..k] == FileFrames(data);
      out := out + [EotFrame(packetId)];
    }
  }
}
