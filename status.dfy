/**
 * Status exchange: the transmitter queries every configured link address in
 * turn and records each status reply in the capability table. Whether a query
 * is acknowledged and which frame, if any, comes back are the radio's doing;
 * they reach the model as one Probe per address.
 */
module StatusExchange {
  import opened Wire
  import opened Wrappers
  import opened CapabilityTable

  /** What the radio did with one status query. */
  datatype Probe =
    | NoAck               // no acknowledgment before the status-query timeout
    | NoReply             // acknowledged, but nothing arrived before the reply timeout
    | Answer(frame: Bytes) // the first frame read while listening for the reply

  /** A round either visits every address or stops at a truncated reply (an uncaught IndexError). */
  datatype Round = Completed(table: Table) | Aborted(table: Table)

  /** The probe brought back a well-formed status reply. */
  predicate Replied(p: Probe)
  {
    p.Answer? && DecodeReply(p.frame).Reply?
  }

  predicate Distinct(links: seq<Bytes>)
  {
    forall i, j :: 0 <= i < j < |links| ==> links[i] != links[j]
  }

  /** The effect of querying one address; None when the reply is truncated. */
  function Query(tb: Table, address: Bytes, p: Probe): Option<Table>
  {
    match p
    case Answer(frame) =>
      (match DecodeReply(frame)
       case Reply(file, token) => Some(Upsert(tb, address, file, token))
       case NotReply => Some(tb)
       case Truncated => None)
    case _ => Some(tb)
  }

  /** One status round over the link addresses, in order. */
  function StatusRound(tb: Table, links: seq<Bytes>, probes: seq<Probe>): Round
    requires |probes| == |links|
    decreases |links|
  {
    if links == [] then Completed(tb)
    else match Query(tb, links[0], probes[0])
      case None => Aborted(tb)
      case Some(next) => StatusRound(next, links[1..], probes[1..])
  }

  /**
   * A reply headed 0x0B leaves exactly one row for the queried address, with
   * File and Token taken from bytes 1 and 2, and keeps every row of another
   * address; a frame with any other header, a missing acknowledgment or a
   * missing reply leave the table as it was; only a truncated reply stops the round.
   */
  lemma QuerySpec(tb: Table, address: Bytes, p: Probe)
    requires UniqueAddresses(tb)
    ensures p.Answer? && |p.frame| >= 3 && p.frame[0] == HeaderStatusReply ==>
      Query(tb, address, p).Some? &&
      UniqueAddresses(Query(tb, address, p).value) &&
      HasRow(Query(tb, address, p).value, address, p.frame[1], p.frame[2]) &&
      forall row :: row in tb && row.address != address ==> row in Query(tb, address, p).value
    ensures p.Answer? && |p.frame| >= 1 && p.frame[0] != HeaderStatusReply ==> Query(tb, address, p) == Some(tb)
    ensures !p.Answer? ==> Query(tb, address, p) == Some(tb)
    ensures Query(tb, address, p).None? <==>
      p.Answer? && (|p.frame| == 0 || (p.frame[0] == HeaderStatusReply && |p.frame| < 3))
  {
    if Replied(p) {
      var f, t := p.frame[1], p.frame[2];
      UpsertSpec(tb, address, f, t);
      forall row | row in tb && row.address != address
        ensures row in Upsert(tb, address, f, t)
      {
        UpsertKeepsOthers(tb, address, f, t, row);
      }
    }
  }

  /** A status round keeps the addresses unique. */
  lemma {:induction false} RoundKeepsUnique(tb: Table, links: seq<Bytes>, probes: seq<Probe>)
    requires |probes| == |links| && UniqueAddresses(tb)
    ensures UniqueAddresses(StatusRound(tb, links, probes).table)
    decreases |links|
  {
    if links != [] {
      match Query(tb, links[0], probes[0])
      case None =>
      case Some(next) =>
        QuerySpec(tb, links[0], probes[0]);
        if Replied(probes[0]) {
          UpsertSpec(tb, links[0], probes[0].frame[1], probes[0].frame[2]);
        }
        RoundKeepsUnique(next, links[1..], probes[1..]);
    }
  }

  /**
   * A row whose address got no status reply this round stays in the table
   * unchanged: a failed query neither confirms nor evicts it.
   */
  lemma {:induction false} RoundKeepsUnanswered(tb: Table, links: seq<Bytes>, probes: seq<Probe>, row: Peer)
    requires |probes| == |links| && row in tb
    requires forall i :: 0 <= i < |links| && links[i] == row.address ==> !Replied(probes[i])
    ensures row in StatusRound(tb, links, probes).table
    decreases |links|
  {
    if links != [] {
      match Query(tb, links[0], probes[0])
      case None =>
      case Some(next) =>
        if Replied(probes[0]) {
          UpsertKeepsOthers(tb, links[0], probes[0].frame[1], probes[0].frame[2], row);
        }
        forall i | 0 <= i < |links[1..]| && links[1..][i] == row.address
          ensures !Replied(probes[1..][i])
        {
          assert links[i + 1] == row.address;
        }
        RoundKeepsUnanswered(next, links[1..], probes[1..], row);
    }
  }

  /**
   * After a completed round over distinct addresses, every address that
   * replied has a row holding exactly the flags of its reply.
   */
  lemma {:induction false} RoundRecordsReplies(tb: Table, links: seq<Bytes>, probes: seq<Probe>, i: nat)
    requires |probes| == |links| && Distinct(links) && i < |links|
    requires StatusRound(tb, links, probes).Completed?
    requires Replied(probes[i])
    ensures HasRow(StatusRound(tb, links, probes).table, links[i],
                   DecodeReply(probes[i].frame).file, DecodeReply(probes[i].frame).token)
    decreases |links|
  {
    var next := Query(tb, links[0], probes[0]).value;
    if i == 0 {
      var f, t := probes[0].frame[1], probes[0].frame[2];
      var row := Peer(links[0], f, t);
      UpsertShowsRow(tb, links[0], f, t);
      assert forall j :: 0 <= j < |links[1..]| ==> links[1..][j] == links[j + 1] != row.address;
      RoundKeepsUnanswered(next, links[1..], probes[1..], row);
    } else {
      assert links[1..][i - 1] == links[i] && probes[1..][i - 1] == probes[i];
      assert Distinct(links[1..]) by {
        forall a, b | 0 <= a < b < |links[1..]|
          ensures links[1..][a] != links[1..][b]
        {
          assert links[1..][a] == links[a + 1] && links[1..][b] == links[b + 1];
        }
      }
      RoundRecordsReplies(next, links[1..], probes[1..], i - 1);
    }
  }

  /**
   * A round never drops an address, and the only addresses it adds are the
   * queried ones.
   */
  lemma {:induction false} RoundAddresses(tb: Table, links: seq<Bytes>, probes: seq<Probe>, a: Bytes)
    requires |probes| == |links|
    ensures Listed(tb, a) ==> Listed(StatusRound(tb, links, probes).table, a)
    ensures Listed(StatusRound(tb, links, probes).table, a) ==> Listed(tb, a) || a in links
    decreases |links|
  {
    if links != [] {
      match Query(tb, links[0], probes[0])
      case None =>
      case Some(next) =>
        if Replied(probes[0]) {
          UpsertAddresses(tb, links[0], probes[0].frame[1], probes[0].frame[2], a);
        }
        RoundAddresses(next, links[1..], probes[1..], a);
        if a in links[1..] {
          assert a in links;
        }
    }
  }

  /** A radio that never acknowledges a query leaves the table exactly as it was. */
  lemma {:induction false} SilentRoundChangesNothing(tb: Table, links: seq<Bytes>, probes: seq<Probe>)
    requires |probes| == |links|
    requires forall i :: 0 <= i < |probes| ==> probes[i] == NoAck
    ensures StatusRound(tb, links, probes) == Completed(tb)
    decreases |links|
  {
    if links != [] {
      assert probes[1..][0..] == probes[1..];
      SilentRoundChangesNothing(tb, links[1..], probes[1..]);
    }
  }
}
