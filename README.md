# Token-ring file distribution over nRF24 radios: the protocol engine

`networkLib.py` runs a small ring of radio nodes that pass one file around.
The node holding the token is the transmitter. It asks every configured link
address for a status reply, which carries the replier's file and token flags. It
records each reply in its capability table. It sends the file, in 30-byte chunks,
to every row that lacks it, and it drops a row whose transfer times out. It then
hands the token on: first to a row that has never held it, then to one that has,
and moves that row to the tail of the table. A node without the token is a
receiver. It answers status queries with its own flags and reassembles incoming
files frame by frame, dropping a frame that repeats the previous sequence id. A
token frame makes it the next transmitter.

The model is split into modules that follow that structure:

- `Wire` (`wire.dfy`): the four frame kinds and their constants, the status-reply
  decoder, the 30-byte chunking, and the wrapping one-byte sequence id.
- `CapabilityTable` (`table.dfy`): rows `Peer(address, file, token)` in order, with
  upsert, eviction and move-to-tail.
- `StatusExchange` (`status.dfy`): a status round over the link addresses.
- `FileDistribution` (`distribution.dfy`): which rows survive distribution and
  which frames go on the air.
- `TokenRotation` (`rotation.dfy`): the two-tier choice and the rotation.
- `Receiver` (`receiver.dfy`): header dispatch, the status answer, and the
  reassembly loop.
- `Node` (`node.dfy`): class `Node`, whose fields `tb`, `file` and `token` are the
  module-level globals of the source. Its methods `SendStatus`, `SendFile`,
  `SendToken`, `Transmit` and `Handle` are loops over that state. Each is proved
  against the specification functions of the modules above.

The radio and the clocks become inputs, called oracles:

- Status: one `Probe` per link address. The query is either not acknowledged
  (`NoAck`), acknowledged with nothing read back (`NoReply`), or answered with the
  frame read (`Answer`).
- File: one number per table row, `clock`. It counts the data chunks whose send
  completes before that peer's transfer clock expires. Chunk number `clock` is the
  one being sent when the clock expires.
- Token: one boolean per table row, saying whether the token send is acknowledged
  before its timeout. Each row is tried at most once per call, because its Token
  byte puts it in at most one tier.
- The `while not sendToken` retry: a finite sequence of such boolean vectors, one
  per attempt.
- Reassembly: the frames that arrive before the receive timeout, in arrival order.

Where the code and its docstrings or design notes disagree, the model follows
the code:

- The row that takes the token from Tier A goes back to the tail with Token 0.
  The copy re-appended at networkLib.py:203 is taken at line 189, before the flag
  is set at line 201 (`TierAKeepsTokenZero`). The docstring at line 180 says the
  value becomes 1. Nor does `sendFile` (lines 141-171) ever write the File column.
  So neither sendFile nor sendToken writes File 1 or Token 1 into the table for
  the peer they served; only a later status round records that peer's own reply.
  A two-peer turn therefore ends with `[B(0,1), A(0,0)]`, not with every flag set
  (`TwoPeerTurn`).
- The first file frame's payload is taken without any check (line 299). The first
  id comparison always differs, because a bytes value is compared with an int
  (lines 297, 311). The model starts with "no id seen" (`FirstFrameRepeatKept`).
- `file = 1` at line 320 binds a local name. Receiving a file does not change the
  node's flags: `Handle` changes nothing.
- The address a status answer goes to is `message[1:6]`, which is 5 bytes of the
  6-byte own address (`QueryAddressRoundTrip`).
- The receive timeout runs from the start of the whole loop and is never reset.
  This is why the arrivals are a finite sequence rather than a per-frame timeout.
- A frame too short for the byte the code reads raises IndexError in Python. The
  model makes that an outcome of its own:
  - `Truncated` for a status reply;
  - `Aborted`, then `Crashed`, for the status round and the turn;
  - `Malformed` for a file frame in reassembly;
  - `Unread` for an empty frame at dispatch.
- A file whose last chunk is exactly the end-of-transmission marker arrives
  without that chunk (`MarkerChunkCutsFile`). An empty file is sent as the marker
  frame alone, and the receiver takes that frame's payload as data and then waits
  in vain (`EmptyFileNotReceived`).

## Model

| member | source | states |
|---|---|---|
| Wire.Slice | networkLib.py:274 | Python's clamped slice: the length is clamped to the input and every byte is the input's byte at the shifted index |
| Wire.DecodeReply | networkLib.py:119-121 | a frame is a reply exactly when it has at least 3 bytes and header 0x0B, with File and Token taken from bytes 1 and 2; any other header is not a reply; an empty or short 0x0B frame is truncated |
| Wire.QueryAddressRoundTrip | networkLib.py:274 | the address recovered from a status query is the sender's own address cut to its first five bytes |
| Wire.DecodeReplyRoundTrip | networkLib.py:277-279 | a status reply built from two flags decodes to those flags |
| Wire.NextId | networkLib.py:161-166 | the id step is +1 modulo 256, so 255 wraps to 0 |
| Wire.NextIdOf | networkLib.py:161-166 | the id of frame k+1 is the step of the id of frame k, and two consecutive ids always differ |
| Wire.ChunkStart | networkLib.py:151 | chunk k exists exactly when its start offset k*30 is inside the file |
| Wire.JoinChunksPrefix | networkLib.py:151-152 | the first k chunks joined are the first k*30 bytes of the file |
| Wire.ChunksJoin | networkLib.py:151-152 | the chunks joined in order give back the file |
| Wire.ChunkSizes | networkLib.py:151-152 | every chunk has 1 to 30 bytes and every chunk but the last has exactly 30 |
| Wire.TransmissionFrames | networkLib.py:147-169 | a transfer has one frame per chunk plus the marker frame; every frame has at most 32 bytes, header 0x0C, the id k mod 256, and the k-th chunk or, last, the marker as payload |
| CapabilityTable.UpsertSpec | networkLib.py:123-128 | upsert keeps addresses unique and leaves a row with the new flags; a listed address is updated where it stands and every other row is kept; an unknown address is appended at the tail |
| CapabilityTable.UpsertShowsRow | networkLib.py:123-128 | after an upsert the table holds the row with the new flags |
| CapabilityTable.UpsertKeepsOthers | networkLib.py:123-128 | a row for another address survives an upsert unchanged |
| CapabilityTable.UpsertAddresses | networkLib.py:123-128 | the addresses after an upsert are exactly the ones before plus the upserted one |
| CapabilityTable.RemoveSpec | networkLib.py:159 | eviction keeps addresses unique, removes the evicted address, and removes exactly that one row, as a multiset |
| CapabilityTable.MoveToTailSpec | networkLib.py:202-203 | moving a row to the tail is a permutation that keeps addresses unique; the row is last and the other rows keep their relative order |
| StatusExchange.QuerySpec | networkLib.py:114-128 | a well-formed 0x0B reply leaves the address's row with bytes 1 and 2 and keeps every other row; another header, no acknowledgment or no reply leave the table alone; only an empty or short 0x0B frame stops the round |
| StatusExchange.RoundKeepsUnique | networkLib.py:93-128 | a status round keeps the addresses unique |
| StatusExchange.RoundKeepsUnanswered | networkLib.py:93-128 | a row whose address got no reply in the round stays in the table unchanged |
| StatusExchange.RoundRecordsReplies | networkLib.py:93-128 | after a completed round over distinct addresses, every address that replied has a row with exactly the flags of its reply |
| StatusExchange.RoundAddresses | networkLib.py:93-128 | a round drops no address and adds only queried addresses |
| StatusExchange.SilentRoundChangesNothing | networkLib.py:99-103 | a round in which no query is acknowledged completes and leaves the table as it was |
| FileDistribution.DistributeSubset | networkLib.py:144-160 | distribution adds no row and keeps every row it keeps as it was |
| FileDistribution.DistributeKeeps | networkLib.py:144-171 | with unique addresses, a row is still listed after distribution exactly when it was not evicted (it had the file, or its clock let every data chunk through, a timeout during the marker frame included), and the addresses stay unique |
| FileDistribution.SentOnlyToMissing | networkLib.py:145 | every frame on the air goes to a row that lacked the file |
| FileDistribution.SentToPeer | networkLib.py:144-171 | the frames addressed to a row lacking the file are exactly the chunks up to the one where its clock expired, or the whole transfer with the marker frame; a row that had the file gets nothing |
| FileDistribution.NothingSentTo | networkLib.py:144-146 | an address no row carries is sent nothing |
| FileDistribution.DistributionIdempotent | networkLib.py:145 | when every row has the file, nothing is sent and the table is unchanged |
| FileDistribution.FailingRadioEvicts | networkLib.py:154-160 | when no data chunk is ever acknowledged and the file is not empty, exactly the rows that lacked the file are evicted |
| TokenRotation.FirstAcked | networkLib.py:188-204 | the scan of one tier returns the first row at or after the start that is in the tier and acknowledges, and no earlier row of the tier acknowledges; when it returns none, no row of the tier acknowledges |
| TokenRotation.ChooseSpec | networkLib.py:187-222 | a row is chosen exactly when some row of either tier acknowledges; the chosen row acknowledged and holds 0 or 1; a Tier A choice is the first acknowledging Token 0 row; a Tier B choice comes only when no Token 0 row acknowledges and is the first acknowledging Token 1 row |
| TokenRotation.RotateSpec | networkLib.py:185-227 | the token is passed exactly when some row of either tier acknowledges; a passed token moves the chosen row unchanged to the tail, keeps the rest in order and evicts nothing; a failed one leaves the table as it was |
| TokenRotation.TierAKeepsTokenZero | networkLib.py:189-203 | a row taking the token from Tier A is re-appended with Token 0 |
| TokenRotation.SilentRadioPassesNothing | networkLib.py:197-218 | when no token send is acknowledged, the token is not passed and the table is unchanged |
| TokenRotation.TwoPeerRotation | networkLib.py:187-222 | with rows A (Token 0) and B (Token 1) both acknowledging, A takes the token and moves to the tail with Token 0 |
| Receiver.DispatchFrames | networkLib.py:257-264 | a query goes to the status handler, a data or marker frame to reassembly, the token frame to the token handler, and a status reply is ignored |
| Receiver.StatusRoundTrip | networkLib.py:274-279 | the answer to a query goes to the querier's address cut to five bytes and decodes there to the answering node's own flags |
| Receiver.ReceiveFile | networkLib.py:297-317 | the reassembly loop returns exactly the reception its specification gives: the joined payloads at the first new-id marker frame, nothing on timeout, an error on a short frame; non-file frames and repeats of the last id are skipped |
| Receiver.ReassembleTail | networkLib.py:303-316 | the frames of a transfer from the k-th on, with the first k payloads already in, complete the file |
| Receiver.ReceiveRoundTrip | networkLib.py:297-319 | a non-empty file sent as data frames with ids 0, 1, ... mod 256 and then the marker frame is received byte for byte when no chunk after the first is the marker; the frames after it stay unread |
| Receiver.ChunkIsEot | networkLib.py:312 | only the last chunk can equal the marker, and only for a file longer than one chunk whose length is 3 more than a multiple of 30 and which ends with the marker's bytes |
| Receiver.ReceiveFileRoundTrip | networkLib.py:297-319 | every non-empty file that does not end in a marker-only chunk is received byte for byte |
| Receiver.MarkerChunkCutsFile | networkLib.py:312-313 | a 33-byte file ending with the marker's bytes is received as its first 30 bytes |
| Receiver.EmptyFileNotReceived | networkLib.py:297-313 | an empty file is sent as the marker frame alone, which the receiver takes as data and then abandons on timeout |
| Receiver.RepeatDropped | networkLib.py:311 | a file frame repeated right after itself is taken once |
| Receiver.FirstFrameRepeatKept | networkLib.py:297-311 | the first frame, repeated right after itself, is taken twice |
| Node.FirstPassing | networkLib.py:74-75 | the retry loop stops at the first attempt that passes the token, and every earlier attempt failed; when none passes, all failed |
| Node.TurnKeepsUnique | networkLib.py:54-75 | a whole transmitter turn keeps the table's addresses unique |
| Node.TwoPeerTurn | networkLib.py:70-75 | two rows lacking the file, no status query acknowledged, every chunk and both token sends acknowledged: each gets the whole transfer, first A then B, and A takes the token and goes to the tail, the table still showing File 0 and A's Token 0 |
| Node.Node.constructor | networkLib.py:29-35 | a node starts with an empty table and both flags 0 |
| Node.Node.SendStatus | networkLib.py:93-128 | the loop over the link addresses leaves the table the status round gives, reports whether the round completed, keeps addresses unique and leaves the flags alone |
| Node.Node.SendFile | networkLib.py:141-171 | the loop over a snapshot of the table leaves exactly the rows distribution keeps, returns exactly the frames distribution sends, and keeps addresses unique |
| Node.Transfer | networkLib.py:147-171 | one peer's transfer loop returns the frames offered to it, with ids stepped each chunk, and reports a timeout exactly when its clock expires during a data chunk |
| Node.Node.SendToken | networkLib.py:184-227 | the two tier scans return whether the token passed and leave the table the rotation gives |
| Node.Node.TryTier | networkLib.py:188-222 | one tier's scan passes the token exactly when some row of the tier acknowledges, and then moves the first such row, as it was read, to the tail; otherwise the table is unchanged |
| Node.Node.Transmit | networkLib.py:54-75 | the transmitter role sets both flags to 1 and leaves the table and the frames the turn function gives: a crash at a truncated reply, a stall when no attempt passes the token, or the hand-off at the first attempt that does |
| Node.Node.Handle | networkLib.py:255-264 | one receiver step: a query is answered with the node's flags, which the answer decodes to; a file frame is reassembled from the frames that follow; the token frame is taken; any other header is ignored; an empty frame cannot be read |

## Left out

- `todoLib.py` is not part of this model. It does radio start-up (`initializeRadio`) and file I/O (`readFile`, `saveFile`), so the file is a byte sequence given to `SendFile` and the received bytes are the value `Complete(data, ...)`.
- Radio configuration and pipe handling (channel, power level, retries, opening pipes) are left out. `radio.write`, `available` and `read` are the oracles described above.
- The radio's listen state is not modelled, and the oracles are independent of one another. In `sendStatus`, `radio.listen = True` (line 107) is undone (lines 116-117) only when a reply is available (line 114). If the last link address acknowledges its query but sends no reply, the radio is still listening when `sendFile` (lines 146-171) writes its chunks, since `sendFile` never sets `listen` to False (unlike lines 94, 193 and 212). On a half-duplex radio those writes then fail, so every peer's transfer depends on the last status probe. The model draws each row's `clock` independently of the probes and does not capture this link; its properties hold for every choice of clocks.
- Clocks, sleeps and the timeout constants are left out. Each retry-until-timeout loop is replaced by its oracle outcome.
- pandas mechanics (index labels, `iterrows`, `concat`, `ignore_index`) are left out. The table is a sequence of rows, and `iterrows` is a walk over a snapshot of it.
- `logging` calls are left out.
- The endless `while True` receiver loop, and the mutual recursion from transmitter to receiver to token handler and back, are not modelled. `Handle` is one receiver step and `Transmit` is one transmitter turn.
- Node.Node.Transmit: the unbounded `while not sendToken` retry is cut at the number of attempts given. When none of them passes the token, the turn ends as `Stalled` instead of retrying forever.
- Node.Node.Handle: whether the status answer is acknowledged is not modelled, since the code ignores the outcome. The answer is returned as its address and frame.
- The transport of the raw globals is not modelled. The node's `file` and `token` appear only as the two flags its status reply encodes.
