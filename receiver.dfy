/**
 * The receiver side: dispatch of an inbound frame by its header, the answer to
 * a status query, and the reassembly loop that collects a file frame by frame.
 *
 * The frames the radio delivers during the reassembly loop, before its total
 * timeout expires, reach the model as a sequence in arrival order.
 */
module Receiver {
  import opened Wire
  import opened Wrappers

  /** What the receiver does with an inbound frame. */
  datatype Action =
    | AnswerStatus  // 0x0A
    | CollectFile   // 0x0C
    | TakeToken     // 0x0D
    | Ignore        // any other header
    | Unreadable    // an empty frame: reading its header raises IndexError

  function Dispatch(frame: Bytes): Action
  {
    if |frame| == 0 then Unreadable
    else if frame[0] == HeaderStatus then AnswerStatus
    else if frame[0] == HeaderFile then CollectFile
    else if frame[0] == HeaderToken then TakeToken
    else Ignore
  }

  /**
   * Each frame a transmitter builds reaches its handler: a query is answered,
   * a file frame (data or end of transmission) starts reassembly, the token
   * frame hands over the token, and a status reply is ignored.
   */
  lemma DispatchFrames(own: Bytes, id: byte, chunk: Bytes, file: byte, token: byte)
    ensures Dispatch(StatusQuery(own)) == AnswerStatus
    ensures Dispatch(DataFrame(id, chunk)) == CollectFile
    ensures Dispatch(EotFrame(id)) == CollectFile
    ensures Dispatch(TokenFrame) == TakeToken
    ensures Dispatch(StatusReply(file, token)) == Ignore
  {
  }

  /** A status answer: where it is sent and the frame sent. */
  datatype StatusAnswer = StatusAnswer(to: Bytes, frame: Bytes)

  /** The answer to a status query, built from the node's own flags. */
  function AnswerQuery(query: Bytes, file: byte, token: byte): StatusAnswer
  {
    StatusAnswer(QueryAddress(query), StatusReply(file, token))
  }

  /**
   * A query and its answer make a round trip: the answer goes to the querying
   * node's address, cut to five bytes, and decodes there to the flags of the
   * answering node.
   */
  lemma StatusRoundTrip(own: Bytes, file: byte, token: byte)
    ensures AnswerQuery(StatusQuery(own), file, token).to == own[..Min(5, |own|)]
    ensures DecodeReply(AnswerQuery(StatusQuery(own), file, token).frame) == Reply(file, token)
  {
    QueryAddressRoundTrip(own);
    DecodeReplyRoundTrip(file, token);
  }

  //------------------------------------------------------------------
  // Reassembly
  //------------------------------------------------------------------

  /** How a reassembly loop ends. */
  datatype Reception =
    | Complete(data: Bytes, rest: seq<Bytes>) // end of transmission seen; `rest` is left unread
    | Abandoned                               // timed out before the end of transmission: nothing saved
    | Malformed                               // a frame too short for its header or id: IndexError

  /**
   * The loop after the first frame. `last` is the id of the last file frame
   * looked at (None before the first comparison, which therefore never
   * matches); `parts` are the payloads accepted so far.
   */
  function Reassemble(last: Option<byte>, arrivals: seq<Bytes>, parts: seq<Bytes>): Reception
    decreases |arrivals|
  {
    if arrivals == [] then Abandoned
    else
      var m := arrivals[0];
      if |m| == 0 then Malformed
      else if m[0] != HeaderFile then Reassemble(last, arrivals[1..], parts)
      else if |m| < 2 then Malformed
      else if last == Some(m[1]) then Reassemble(last, arrivals[1..], parts)
      else if Payload(m) == Eot then Complete(Join(parts), arrivals[1..])
      else Reassemble(Some(m[1]), arrivals[1..], parts + [Payload(m)])
  }

  /** File reception: the first frame's payload is taken without any check. */
  function ReceiveSpec(first: Bytes, arrivals: seq<Bytes>): Reception
  {
    Reassemble(None, arrivals, [Payload(first)])
  }

  /** The reassembly loop, frame by frame, appending to the list of payloads. */
  method ReceiveFile(first: Bytes, arrivals: seq<Bytes>) returns (r: Reception)
    ensures r == ReceiveSpec(first, arrivals)
  {
    var last: Option<byte> := None;
    var parts := [Payload(first)];
    var i := 0;
    while i < |arrivals|
      invariant 0 <= i <= |arrivals|
      invariant Reassemble(last, arrivals[i..], parts) == ReceiveSpec(first, arrivals)
    {
      var m := arrivals[i];
      assert arrivals[i..][1..] == arrivals[i + 1..];
      if |m| == 0 {
        return Malformed;
      }
      if m[0] == HeaderFile {
        if |m| < 2 {
          return Malformed;
        }
        if last != Some(m[1]) {
          if Payload(m) == Eot {
            return Complete(Join(parts), arrivals[i + 1..]);
          }
          parts := parts + [Payload(m)];
          last := Some(m[1]);
        }
      }
      i := i + 1;
    }
    return Abandoned;
  }

  lemma PayloadOfDataFrame(id: byte, chunk: Bytes)
    ensures Payload(DataFrame(id, chunk)) == chunk
  {
    assert DataFrame(id, chunk)[2..] == chunk;
  }

  /** The id of the last file frame looked at once the first k frames of a transfer are in. */
  function LastIdAfter(k: nat): Option<byte>
  {
    if k <= 1 then None else Some(IdOf(k - 1))
  }

  /** Reassembly of the frames of a transfer from the k-th on, the first k payloads already in. */
  lemma {:induction false} ReassembleTail(data: Bytes, k: nat, later: seq<Bytes>)
    requires 1 <= k <= NumChunks(|data|)
    requires forall j :: 1 <= j < NumChunks(|data|) ==> Chunks(data)[j] != Eot
    ensures Reassemble(LastIdAfter(k), Transmission(data)[k..] + later, Chunks(data)[..k]) ==
            Complete(Join(Chunks(data)), later)
    decreases NumChunks(|data|) - k
  {
    var n := NumChunks(|data|);
    var t := Transmission(data);
    var arrivals := t[k..] + later;
    var m := arrivals[0];
    assert arrivals[1..] == t[k + 1..] + later;
    NextIdOf(k - 1);
    if k == n {
      assert m == EotFrame(IdOf(n));
      PayloadOfDataFrame(IdOf(n), Eot);
      assert t[k + 1..] == [];
      assert Chunks(data)[..k] == Chunks(data);
    } else {
      assert m == DataFrame(IdOf(k), Chunks(data)[k]);
      PayloadOfDataFrame(IdOf(k), Chunks(data)[k]);
      assert Chunks(data)[..k] + [Chunks(data)[k]] == Chunks(data)[..k + 1];
      ReassembleTail(data, k + 1, later);
    }
  }

  /**
   * A non-empty file sent as its data frames with ids 0, 1, ... mod 256 and
   * then the end-of-transmission frame is received byte for byte, provided no
   * chunk after the first is the marker itself; the frames after it are left
   * unread.
   */
  lemma ReceiveRoundTrip(data: Bytes, later: seq<Bytes>)
    requires |data| > 0
    requires forall j :: 1 <= j < NumChunks(|data|) ==> Chunks(data)[j] != Eot
    ensures ReceiveSpec(Transmission(data)[0], Transmission(data)[1..] + later) == Complete(data, later)
  {
    ChunkStart(|data|, 0);
    var t := Transmission(data);
    assert t[0] == DataFrame(IdOf(0), Chunks(data)[0]);
    PayloadOfDataFrame(IdOf(0), Chunks(data)[0]);
    assert [Payload(t[0])] == Chunks(data)[..1];
    ReassembleTail(data, 1, later);
    ChunksJoin(data);
  }

  /**
   * Only the last chunk can equal the marker, and only when the file is longer
   * than one chunk, its length is 3 more than a multiple of ChunkSize and it
   * ends with the marker's three bytes.
   */
  lemma ChunkIsEot(data: Bytes, j: nat)
    requires 1 <= j < NumChunks(|data|)
    requires Chunks(data)[j] == Eot
    ensures j == NumChunks(|data|) - 1
    ensures |data| > ChunkSize && |data| % ChunkSize == 3 && data[|data| - 3..] == Eot
  {
    ChunkSizes(data, j);
    ChunkStart(|data|, j);
    var lo := j * ChunkSize;
    assert |data[lo..Min(lo + ChunkSize, |data|)]| == 3;
    assert |data| == lo + 3;
  }

  /** The round trip for every non-empty file that does not end in a marker-only chunk. */
  lemma ReceiveFileRoundTrip(data: Bytes, later: seq<Bytes>)
    requires |data| > 0
    requires !(|data| > ChunkSize && |data| % ChunkSize == 3 && data[|data| - 3..] == Eot)
    ensures ReceiveSpec(Transmission(data)[0], Transmission(data)[1..] + later) == Complete(data, later)
  {
    forall j | 1 <= j < NumChunks(|data|)
      ensures Chunks(data)[j] != Eot
    {
      if Chunks(data)[j] == Eot {
        ChunkIsEot(data, j);
      }
    }
    ReceiveRoundTrip(data, later);
  }

  /** A file whose last chunk is the marker arrives without that chunk. */
  lemma MarkerChunkCutsFile()
    ensures var data := seq(ChunkSize, _ => 0) + Eot;
      ReceiveSpec(Transmission(data)[0], Transmission(data)[1..]) == Complete(seq(ChunkSize, _ => 0), [Transmission(data)[2]])
  {
    var zeros: Bytes := seq(ChunkSize, _ => 0);
    var data := zeros + Eot;
    assert NumChunks(|data|) == 2;
    assert Chunks(data)[0] == zeros;
    assert Chunks(data)[1] == Eot;
    var t := Transmission(data);
    PayloadOfDataFrame(IdOf(0), zeros);
    PayloadOfDataFrame(IdOf(1), Eot);
    assert t[1..] == [t[1], t[2]];
    assert t[1] == DataFrame(1, Eot);
    assert [zeros][..0] == [];
    assert Join([zeros]) == zeros;
  }

  /**
   * An empty file is sent as the end-of-transmission frame alone; the receiver
   * takes the marker as the first payload and, with nothing more arriving,
   * gives up without saving anything.
   */
  lemma EmptyFileNotReceived()
    ensures Transmission([]) == [EotFrame(0)]
    ensures ReceiveSpec(Transmission([])[0], Transmission([])[1..]) == Abandoned
  {
    assert NumChunks(0) == 0;
    assert FileFrames([]) == [];
    assert Transmission([])[1..] == [];
  }

  /**
   * A data frame repeated immediately, as when its acknowledgment was lost, is
   * taken once.
   */
  lemma RepeatDropped(last: Option<byte>, m: Bytes, rest: seq<Bytes>, parts: seq<Bytes>)
    requires |m| >= 2 && m[0] == HeaderFile && Payload(m) != Eot
    ensures Reassemble(last, [m, m] + rest, parts) == Reassemble(last, [m] + rest, parts)
  {
    assert ([m, m] + rest)[1..] == [m] + rest;
    assert ([m] + rest)[1..] == rest;
  }

  /**
   * The first frame is never compared: repeated right after itself, its payload
   * is taken twice.
   */
  lemma FirstFrameRepeatKept(m: Bytes, rest: seq<Bytes>)
    requires |m| >= 2 && m[0] == HeaderFile && Payload(m) != Eot
    ensures ReceiveSpec(m, [m] + rest) == Reassemble(Some(m[1]), rest, [Payload(m), Payload(m)])
  {
    assert ([m] + rest)[1..] == rest;
    assert [Payload(m)] + [Payload(m)] == [Payload(m), Payload(m)];
    assert ReceiveSpec(m, [m] + rest) == Reassemble(None, [m] + rest, [Payload(m)]);
  }
}
