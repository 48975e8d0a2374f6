/**
 * The wire format of the token-ring protocol: the four frame kinds, the
 * status reply decoder, the 30-byte chunking of a file and the wrapping
 * one-byte sequence id carried by every file frame.
 */
module Wire {

  /** One octet on the air. */
  newtype byte = x: int | 0 <= x < 256

  type Bytes = seq<byte>

  /** Largest frame the radio carries. */
  const PacketSize: nat := 32

  /** Data bytes per file frame: the frame minus its header and sequence byte. */
  const ChunkSize: nat := PacketSize - 2

  const HeaderStatus: byte := 0x0A
  const HeaderStatusReply: byte := 0x0B
  const HeaderFile: byte := 0x0C
  const HeaderToken: byte := 0x0D

  /** The end-of-transmission marker placed where a file frame's data would be. */
  const Eot: Bytes := [226, 144, 151]

  function Min(a: int, b: int): int { if a <= b then a else b }

  /** Python's `s[lo:hi]` for `0 <= lo <= hi`: both bounds are clamped to the length. */
  function Slice(s: Bytes, lo: nat, hi: nat): (r: Bytes)
    requires lo <= hi
    ensures |r| == if lo <= |s| then Min(hi, |s|) - lo else 0
    ensures forall k :: 0 <= k < |r| ==> r[k] == s[lo + k]
  {
    s[Min(lo, |s|)..Min(hi, |s|)]
  }

  //------------------------------------------------------------------
  // Frames
  //------------------------------------------------------------------

  /** The token frame is its header alone. */
  const TokenFrame: Bytes := [HeaderToken]

  /** A status query carries the sender's own link address. */
  function StatusQuery(own: Bytes): Bytes
  {
    [HeaderStatus] + own
  }

  /** The address a receiver answers a status query to: bytes 1 up to 6. */
  function QueryAddress(query: Bytes): Bytes
  {
    Slice(query, 1, 6)
  }

  /** A status reply carries the replier's file and token flags. */
  function StatusReply(file: byte, token: byte): Bytes
  {
    [HeaderStatusReply, file, token]
  }

  /** What a transmitter makes of the frame it reads after a status query. */
  datatype ReplyDecoding =
    | Reply(file: byte, token: byte)
    | NotReply    // any other header: the frame is ignored
    | Truncated   // header 0x0B but fewer than three bytes: Python raises IndexError

  function DecodeReply(frame: Bytes): (d: ReplyDecoding)
    ensures d.Reply? <==> |frame| >= 3 && frame[0] == HeaderStatusReply
    ensures d.Reply? ==> d.file == frame[1] && d.token == frame[2]
    ensures d.NotReply? <==> |frame| >= 1 && frame[0] != HeaderStatusReply
  {
    if |frame| == 0 then Truncated
    else if frame[0] != HeaderStatusReply then NotReply
    else if |frame| < 3 then Truncated
    else Reply(frame[1], frame[2])
  }

  /**
   * The address a receiver recovers from a status query is the sender's own
   * address cut to its first five bytes.
   */
  lemma QueryAddressRoundTrip(own: Bytes)
    ensures QueryAddress(StatusQuery(own)) == own[..Min(5, |own|)]
  {
    assert StatusQuery(own)[1..] == own;
  }

  /** A status reply decodes to the flags it was built from. */
  lemma DecodeReplyRoundTrip(file: byte, token: byte)
    ensures DecodeReply(StatusReply(file, token)) == Reply(file, token)
  {
  }

  /** A file frame: header, sequence id, then the data. */
  function DataFrame(id: byte, chunk: Bytes): Bytes
  {
    [HeaderFile, id] + chunk
  }

  /** The frame closing a file transfer carries the marker in the data position. */
  function EotFrame(id: byte): Bytes
  {
    DataFrame(id, Eot)
  }

  /** Python's `frame[2:]`: what follows the header and the sequence id. */
  function Payload(frame: Bytes): Bytes
  {
    if |frame| <= 2 then [] else frame[2..]
  }

  //------------------------------------------------------------------
  // Sequence ids
  //------------------------------------------------------------------

  /** The sender's id step: 255 wraps to 0, anything else is incremented. */
  function NextId(id: byte): (next: byte)
    ensures next as int == (id as int + 1) % 256
  {
    if id == 255 then 0 else id + 1
  }

  /** The id the sender gives its k-th frame to one peer. */
  function IdOf(k: nat): byte
  {
    (k % 256) as byte
  }

  lemma NextIdOf(k: nat)
    ensures NextId(IdOf(k)) == IdOf(k + 1)
    ensures IdOf(k) != IdOf(k + 1)
  {
  }

  //------------------------------------------------------------------
  // Chunking
  //------------------------------------------------------------------

  /** Number of chunks `range(0, n, ChunkSize)` visits. */
  function NumChunks(n: nat): nat
  {
    (n + ChunkSize - 1) / ChunkSize
  }

  lemma ChunkStart(n: nat, k: nat)
    ensures k < NumChunks(n) <==> k * ChunkSize < n
  {
    if k < NumChunks(n) {
      assert k + 1 <= (n + 29) / 30;
      assert (k + 1) * 30 <= n + 29;
    } else {
      assert (n + 29) / 30 <= k;
      assert n + 29 < (k + 1) * 30;
    }
  }

  /** The k-th chunk, `data[i:i+ChunkSize]` for `i = k * ChunkSize`. */
  function Chunk(data: Bytes, k: nat): Bytes
    requires k < NumChunks(|data|)
  {
    ChunkStart(|data|, k);
    data[k * ChunkSize..Min(k * ChunkSize + ChunkSize, |data|)]
  }

  function Chunks(data: Bytes): seq<Bytes>
  {
    seq(NumChunks(|data|), k requires 0 <= k < NumChunks(|data|) => Chunk(data, k))
  }

  /** Python's `b''.join(parts)`. */
  function Join(parts: seq<Bytes>): Bytes
  {
    if parts == [] then [] else Join(parts[..|parts| - 1]) + parts[|parts| - 1]
  }

  lemma JoinAppend(parts: seq<Bytes>, last: Bytes)
    ensures Join(parts + [last]) == Join(parts) + last
  {
    assert (parts + [last])[..|parts|] == parts;
  }

  /** Joining the first k chunks gives the first k * ChunkSize bytes of the data. */
  lemma {:induction false} JoinChunksPrefix(data: Bytes, k: nat)
    requires k <= NumChunks(|data|)
    ensures Join(Chunks(data)[..k]) == data[..Min(k * ChunkSize, |data|)]
  {
    var cs := Chunks(data);
    if k == 0 {
      assert cs[..0] == [];
    } else {
      JoinChunksPrefix(data, k - 1);
      var lo := (k - 1) * ChunkSize;
      var hi := Min(lo + ChunkSize, |data|);
      assert lo < |data| && k * ChunkSize == lo + ChunkSize by {
        ChunkStart(|data|, k - 1);
      }
      assert cs[..k][..k - 1] == cs[..k - 1];
      assert cs[..k][k - 1] == data[lo..hi];
      assert Join(cs[..k]) == Join(cs[..k - 1]) + data[lo..hi];
      assert data[..lo] + data[lo..hi] == data[..hi];
    }
  }

  /** Chunking loses nothing: the chunks joined in order are the data. */
  lemma ChunksJoin(data: Bytes)
    ensures Join(Chunks(data)) == data
  {
    var n := NumChunks(|data|);
    JoinChunksPrefix(data, n);
    assert Chunks(data)[..n] == Chunks(data);
    if n > 0 {
      ChunkStart(|data|, n);
    } else {
      ChunkStart(|data|, 0);
    }
  }

  /** Every chunk holds 1 to ChunkSize bytes, and only the last may be short. */
  lemma ChunkSizes(data: Bytes, k: nat)
    requires k < NumChunks(|data|)
    ensures 0 < |Chunks(data)[k]| <= ChunkSize
    ensures k + 1 < NumChunks(|data|) ==> |Chunks(data)[k]| == ChunkSize
  {
    ChunkStart(|data|, k);
    ChunkStart(|data|, k + 1);
  }

  //------------------------------------------------------------------
  // A whole transfer to one peer
  //------------------------------------------------------------------

  /** The data frames for a file: the k-th chunk with id k mod 256. */
  function FileFrames(data: Bytes): seq<Bytes>
  {
    seq(NumChunks(|data|), k requires 0 <= k < NumChunks(|data|) => DataFrame(IdOf(k), Chunks(data)[k]))
  }

  /** The data frames followed by the end-of-transmission frame with the next id. */
  function Transmission(data: Bytes): seq<Bytes>
  {
    FileFrames(data) + [EotFrame(IdOf(NumChunks(|data|)))]
  }

  /**
   * The shape of every frame of a transfer: at most PacketSize bytes, the file
   * header, the k-th id, and the k-th chunk or, last, the marker as payload.
   */
  lemma TransmissionFrames(data: Bytes)
    ensures |Transmission(data)| == NumChunks(|data|) + 1
    ensures forall k :: 0 <= k < |Transmission(data)| ==>
      |Transmission(data)[k]| <= PacketSize &&
      Transmission(data)[k][0] == HeaderFile && Transmission(data)[k][1] == IdOf(k) &&
      Payload(Transmission(data)[k]) == (if k < NumChunks(|data|) then Chunks(data)[k] else Eot)
  {
    var n := NumChunks(|data|);
    var t := Transmission(data);
    forall k | 0 <= k < |t|
      ensures |t[k]| <= PacketSize && t[k][0] == HeaderFile && t[k][1] == IdOf(k)
      ensures Payload(t[k]) == (if k < n then Chunks(data)[k] else Eot)
    {
      if k < n {
        ChunkSizes(data, k);
        assert t[k] == DataFrame(IdOf(k), Chunks(data)[k]);
      } else {
        assert t[k] == EotFrame(IdOf(n));
      }
    }
  }
}
