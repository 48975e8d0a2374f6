/**
 * File distribution: the transmitter sends the file, chunk by chunk, to every
 * row of the capability table whose File flag is 0, and evicts a row whose
 * transfer clock runs out while a data chunk is still unacknowledged.
 *
 * The radio and the clock reach the model as one number per table row, its
 * clock: the number of data chunks whose send completes before that peer's
 * shared transfer clock expires. The chunk with index `clock` is the one
 * being retried when it expires.
 */
module FileDistribution {
  import opened Wire
  import opened CapabilityTable

  /** One frame the sender put on the air, and the peer it was addressed to. */
  datatype Delivery = Delivery(to: Bytes, frame: Bytes)

  /** A row is evicted when it lacks the file and its clock expires during a data chunk. */
  predicate Evicted(p: Peer, chunks: nat, clock: nat)
  {
    p.file == 0 && clock < chunks
  }

  /**
   * The frames offered to one peer lacking the file: the chunks up to and
   * including the one during which the clock expired, or, when every chunk
   * went through in time, all of them and the end-of-transmission frame.
   */
  function Offered(data: Bytes, clock: nat): seq<Bytes>
  {
    if clock < NumChunks(|data|) then FileFrames(data)[..clock + 1] else Transmission(data)
  }

  function Addressed(to: Bytes, frames: seq<Bytes>): seq<Delivery>
  {
    seq(|frames|, k requires 0 <= k < |frames| => Delivery(to, frames[k]))
  }

  /** The rows left after distribution: those not evicted, in their order. */
  function Distribute(tb: Table, chunks: nat, clock: seq<nat>): Table
    requires |clock| == |tb|
  {
    if tb == [] then []
    else
      var n := |tb| - 1;
      Distribute(tb[..n], chunks, clock[..n]) + (if Evicted(tb[n], chunks, clock[n]) then [] else [tb[n]])
  }

  /**
   * Each frame offered, once, in table order. A frame the radio retries is
   * listed once however often it goes on the air.
   */
  function Sent(tb: Table, data: Bytes, clock: seq<nat>): seq<Delivery>
    requires |clock| == |tb|
  {
    if tb == [] then []
    else
      var n := |tb| - 1;
      Sent(tb[..n], data, clock[..n]) +
        (if tb[n].file == 0 then Addressed(tb[n].address, Offered(data, clock[n])) else [])
  }

  /** The frames of a log addressed to one peer, in order. */
  function ToPeer(log: seq<Delivery>, to: Bytes): seq<Bytes>
  {
    if log == [] then []
    else
      var n := |log| - 1;
      ToPeer(log[..n], to) + (if log[n].to == to then [log[n].frame] else [])
  }

  lemma {:induction false} ToPeerAppend(a: seq<Delivery>, b: seq<Delivery>, to: Bytes)
    ensures ToPeer(a + b, to) == ToPeer(a, to) + ToPeer(b, to)
    decreases |b|
  {
    if b != [] {
      var n := |b| - 1;
      assert (a + b)[..|a + b| - 1] == a + b[..n];
      ToPeerAppend(a, b[..n], to);
    } else {
      assert a + b == a;
    }
  }

  lemma {:induction false} ToPeerAddressed(x: Bytes, frames: seq<Bytes>, to: Bytes)
    ensures ToPeer(Addressed(x, frames), to) == if x == to then frames else []
    decreases |frames|
  {
    if frames != [] {
      var n := |frames| - 1;
      assert Addressed(x, frames)[..n] == Addressed(x, frames[..n]);
      ToPeerAddressed(x, frames[..n], to);
      assert frames[..n] + [frames[n]] == frames;
    }
  }

  /** Distribution keeps rows as they were and adds none. */
  lemma {:induction false} DistributeSubset(tb: Table, chunks: nat, clock: seq<nat>)
    requires |clock| == |tb|
    ensures |Distribute(tb, chunks, clock)| <= |tb|
    ensures forall p :: p in Distribute(tb, chunks, clock) ==> p in tb
    decreases |tb|
  {
    if tb != [] {
      var n := |tb| - 1;
      DistributeSubset(tb[..n], chunks, clock[..n]);
    }
  }

  /**
   * With unique addresses, a row's address is still listed after distribution
   * exactly when the row is not evicted, and the addresses stay unique.
   */
  lemma {:induction false} DistributeKeeps(tb: Table, chunks: nat, clock: seq<nat>)
    requires |clock| == |tb| && UniqueAddresses(tb)
    ensures UniqueAddresses(Distribute(tb, chunks, clock))
    ensures forall i :: 0 <= i < |tb| ==>
      (Listed(Distribute(tb, chunks, clock), tb[i].address) <==> !Evicted(tb[i], chunks, clock[i]))
    decreases |tb|
  {
    if tb != [] {
      var n := |tb| - 1;
      var pre := Distribute(tb[..n], chunks, clock[..n]);
      var r := Distribute(tb, chunks, clock);
      DistributeKeeps(tb[..n], chunks, clock[..n]);
      DistributeSubset(tb[..n], chunks, clock[..n]);
      // the last row's address occurs nowhere in the kept prefix
      forall k | 0 <= k < |pre|
        ensures pre[k].address != tb[n].address
      {
        assert pre[k] in tb[..n];
        var j :| 0 <= j < n && tb[..n][j] == pre[k];
        assert tb[j] == pre[k];
      }
      forall a, b | 0 <= a < b < |r|
        ensures r[a].address != r[b].address
      {
        if b < |pre| {
          assert r[a] == pre[a] && r[b] == pre[b];
        } else {
          assert r[a] == pre[a] && r[b] == tb[n];
        }
      }
      forall i | 0 <= i < |tb|
        ensures Listed(r, tb[i].address) <==> !Evicted(tb[i], chunks, clock[i])
      {
        if i == n {
          if !Evicted(tb[n], chunks, clock[n]) {
            assert r[|pre|] == tb[n];
          }
        } else {
          assert tb[..n][i] == tb[i] && clock[..n][i] == clock[i];
          assert tb[i].address != tb[n].address;
          if Listed(pre, tb[i].address) {
            var k :| 0 <= k < |pre| && pre[k].address == tb[i].address;
            assert r[k] == pre[k];
          }
          if Listed(r, tb[i].address) {
            var k :| 0 <= k < |r| && r[k].address == tb[i].address;
            assert k < |pre| && r[k] == pre[k];
          }
        }
      }
    }
  }

  /** Every frame goes to the address of a row that lacked the file. */
  lemma {:induction false} SentOnlyToMissing(tb: Table, data: Bytes, clock: seq<nat>)
    requires |clock| == |tb|
    ensures forall d :: d in Sent(tb, data, clock) ==>
      exists i :: 0 <= i < |tb| && tb[i].file == 0 && tb[i].address == d.to
    decreases |tb|
  {
    if tb != [] {
      var n := |tb| - 1;
      SentOnlyToMissing(tb[..n], data, clock[..n]);
      forall d | d in Sent(tb, data, clock)
        ensures exists i :: 0 <= i < |tb| && tb[i].file == 0 && tb[i].address == d.to
      {
        if d in Sent(tb[..n], data, clock[..n]) {
          var i :| 0 <= i < n && tb[..n][i].file == 0 && tb[..n][i].address == d.to;
          assert tb[i] == tb[..n][i];
        } else {
          assert tb[n].file == 0 && d.to == tb[n].address;
        }
      }
    }
  }

  /**
   * With unique addresses, the frames addressed to a row that lacked the file
   * are exactly the frames offered to it, and a row that had it gets none.
   */
  lemma {:induction false} SentToPeer(tb: Table, data: Bytes, clock: seq<nat>, i: nat)
    requires |clock| == |tb| && UniqueAddresses(tb) && i < |tb|
    ensures ToPeer(Sent(tb, data, clock), tb[i].address) ==
      if tb[i].file == 0 then Offered(data, clock[i]) else []
    decreases |tb|
  {
    var n := |tb| - 1;
    var to := tb[i].address;
    var pre := Sent(tb[..n], data, clock[..n]);
    var last := if tb[n].file == 0 then Addressed(tb[n].address, Offered(data, clock[n])) else [];
    assert Sent(tb, data, clock) == pre + last;
    ToPeerAppend(pre, last, to);
    var fromLast := if tb[n].address == to && tb[n].file == 0 then Offered(data, clock[n]) else [];
    assert ToPeer(last, to) == fromLast by {
      if tb[n].file == 0 {
        ToPeerAddressed(tb[n].address, Offered(data, clock[n]), to);
      }
    }
    if i == n {
      assert !Listed(tb[..n], to) by {
        forall k | 0 <= k < n ensures tb[..n][k].address != to {
          assert tb[..n][k] == tb[k];
        }
      }
      NothingSentTo(tb[..n], data, clock[..n], to);
    } else {
      assert tb[..n][i] == tb[i] && clock[..n][i] == clock[i];
      assert tb[n].address != to;
      assert UniqueAddresses(tb[..n]) by {
        forall a, b | 0 <= a < b < n ensures tb[..n][a].address != tb[..n][b].address {
          assert tb[..n][a] == tb[a] && tb[..n][b] == tb[b];
        }
      }
      SentToPeer(tb[..n], data, clock[..n], i);
    }
  }

  /** An address no row carries is sent nothing. */
  lemma {:induction false} NothingSentTo(tb: Table, data: Bytes, clock: seq<nat>, to: Bytes)
    requires |clock| == |tb| && !Listed(tb, to)
    ensures ToPeer(Sent(tb, data, clock), to) == []
    decreases |tb|
  {
    if tb != [] {
      var n := |tb| - 1;
      var last := if tb[n].file == 0 then Addressed(tb[n].address, Offered(data, clock[n])) else [];
      ToPeerAppend(Sent(tb[..n], data, clock[..n]), last, to);
      if tb[n].file == 0 {
        ToPeerAddressed(tb[n].address, Offered(data, clock[n]), to);
      }
      assert !Listed(tb[..n], to) by {
        forall k | 0 <= k < n ensures tb[..n][k].address != to {
          assert tb[..n][k] == tb[k];
        }
      }
      NothingSentTo(tb[..n], data, clock[..n], to);
    }
  }

  /** When every row already has the file, nothing is sent and the table is unchanged. */
  lemma {:induction false} DistributionIdempotent(tb: Table, data: Bytes, clock: seq<nat>)
    requires |clock| == |tb|
    requires forall i :: 0 <= i < |tb| ==> tb[i].file != 0
    ensures Sent(tb, data, clock) == []
    ensures Distribute(tb, NumChunks(|data|), clock) == tb
    decreases |tb|
  {
    if tb != [] {
      var n := |tb| - 1;
      DistributionIdempotent(tb[..n], data, clock[..n]);
      assert tb[..n] + [tb[n]] == tb;
    }
  }

  /**
   * A radio that never acknowledges a data chunk gets every row that lacked
   * a non-empty file evicted, and keeps every other row.
   */
  lemma FailingRadioEvicts(tb: Table, data: Bytes, clock: seq<nat>)
    requires |clock| == |tb| && UniqueAddresses(tb) && |data| > 0
    requires forall i :: 0 <= i < |clock| ==> clock[i] == 0
    ensures forall i :: 0 <= i < |tb| ==>
      (Listed(Distribute(tb, NumChunks(|data|), clock), tb[i].address) <==> tb[i].file != 0)
  {
    ChunkStart(|data|, 0);
    DistributeKeeps(tb, NumChunks(|data|), clock);
  }
}
