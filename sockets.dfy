/**
 * The state of main/sockets/sockets.cpp: the message queue, the websocket
 * client handle and the reassembly buffer `dbuf`, with the steps that the
 * websocket event context, the system event context and `sockets_task`
 * take on them. Concurrency is modelled as an interleaving of these steps.
 * The heap is tracked by ghost bookkeeping: every buffer `calloc` returned,
 * and every `free` applied to a non-NULL pointer.
 */
module Sockets {
  import opened Bytes

  /** Capacity of the queue created by `sockets_init`. */
  const QUEUE_LENGTH: nat := 10

  /** `ProcessableMessage_t`: a buffer (NULL allowed), its length, and whether it is to be sent. */
  datatype Message = Message(buf: array?<byte>, len: nat, isOutbox: bool)

  /** What `kd_common_crypto_get_state` reports; only `CRYPTO_STATE_VALID_CERT` is told apart. */
  datatype CryptoState = ValidCert | NotValidCert

  /** The event bases `event_handler` is registered for. */
  datatype EventBase = WifiEvent | IpEvent

  /** Calls made into the websocket client library, recorded in order. */
  datatype TransportCall =
    | Start                               // esp_websocket_client_start
    | Close(clientPresent: bool)          // esp_websocket_client_close, with a NULL handle or not
    | SendBin(bytes: seq<byte>)           // esp_websocket_client_send_bin

  /** How far `sockets_task` has come before its consumer loop. */
  datatype Phase =
    | AwaitingCredentials   // polling the crypto state
    | HandlersRegistered    // Wi-Fi and IP handlers registered, client not yet created
    | Running               // client created, websocket events registered, consumer loop running

  /** The multiset holding `b` once, or nothing for NULL: what `free(b)` releases. */
  ghost function Released(b: array?<byte>): multiset<array<byte>>
  {
    if b == null then multiset{} else multiset{b}
  }

  /**
   * The completion test of the DATA case as written:
   * `payload_len + payload_offset >= data_len`.
   */
  predicate HandsOff(payloadLen: nat, payloadOffset: nat, dataLen: nat)
  {
    payloadLen + payloadOffset >= dataLen
  }

  /**
   * The test passes for every chunk that fits in its message, first and
   * middle chunks included: a message in several chunks is handed off once
   * per chunk, before it is complete.
   */
  lemma HandsOffEveryFittingChunk(payloadLen: nat, payloadOffset: nat, dataLen: nat)
    ensures payloadOffset + dataLen <= payloadLen ==> HandsOff(payloadLen, payloadOffset, dataLen)
  {
  }

  /**
   * The credential poll loop at the head of `sockets_task`: read the crypto
   * state, and while it is not a valid certificate wait one second and read
   * it again. `readings` are the successive states read; `delays` is the
   * number of one-second waits, and `ready` whether a valid certificate was
   * seen (otherwise the task is still polling when the readings run out).
   */
  method PollCredentials(readings: seq<CryptoState>) returns (delays: nat, ready: bool)
    ensures ready <==> ValidCert in readings
    ensures delays <= |readings|
    ensures forall k :: 0 <= k < delays ==> readings[k] == NotValidCert
    ensures ready ==> delays < |readings| && readings[delays] == ValidCert
    ensures !ready ==> delays == |readings|
  {
    delays, ready := 0, false;
    while delays < |readings|
      invariant delays <= |readings|
      invariant forall k :: 0 <= k < delays ==> readings[k] == NotValidCert
    {
      if readings[delays] != ValidCert {
        delays := delays + 1;
        continue;
      }
      ready := true;
      break;
    }
  }

  /** `memcpy(dst + at, data, |data|)`. */
  method Memcpy(dst: array<byte>, at: nat, data: seq<byte>)
    requires at + |data| <= dst.Length
    modifies dst
    ensures dst[..] == Overwrite(old(dst[..]), at, data)
  {
    forall i | 0 <= i < |data| {
      dst[at + i] := data[i];
    }
  }

  class SocketsState {
    var phase: Phase
    var client: bool                  // client != NULL
    var registered: set<EventBase>    // bases `event_handler` is registered for
    var queue: seq<Message>           // xSocketsQueue, head first
    var dbuf: array?<byte>            // the static reassembly buffer of websocket_event_handler
    var transport: seq<TransportCall> // calls made into the websocket client
    ghost var allocations: set<array<byte>>   // every buffer calloc has returned
    ghost var frees: multiset<array<byte>>  // every free of a non-NULL pointer

    ghost predicate Valid()
      reads this
    {
      |queue| <= QUEUE_LENGTH &&
      (client ==> phase == Running) &&
      registered == (if phase == AwaitingCredentials then {} else {WifiEvent, IpEvent}) &&
      (dbuf != null ==> dbuf in allocations) &&
      (forall i :: 0 <= i < |queue| && !queue[i].isOutbox && queue[i].buf != null ==> queue[i].buf in allocations) &&
      // the inverted guard of sockets_disconnect: a live client is never closed
      (forall i :: 0 <= i < |transport| && transport[i].Close? ==> !transport[i].clientPresent) &&
      (Start in transport ==> client)
    }

    /** `sockets_init`: an empty queue, no client, the task polling the crypto state. */
    constructor ()
      ensures Valid()
      ensures phase == AwaitingCredentials && !client && registered == {}
      ensures queue == [] && dbuf == null && transport == []
      ensures allocations == {} && frees == multiset{}
    {
      phase := AwaitingCredentials;
      client := false;
      registered := {};
      queue := [];
      dbuf := null;
      transport := [];
      allocations := {};
      frees := multiset{};
    }

    /**
     * `xQueueSend` from the event context with a 50 ms timeout. The consumer
     * does not run during the call in this interleaving, so the send fails
     * exactly when the queue is full, and then leaves it unchanged.
     */
    method Send(m: Message) returns (ok: bool)
      requires Valid()
      requires !m.isOutbox && m.buf != null ==> m.buf in allocations
      modifies this`queue
      ensures Valid()
      ensures ok <==> |old(queue)| < QUEUE_LENGTH
      ensures queue == if ok then old(queue) + [m] else old(queue)
    {
      ok := |queue| < QUEUE_LENGTH;
      if ok {
        queue := queue + [m];
      }
    }

    /**
     * One DATA event of `websocket_event_handler`: a chunk `data` at
     * `payloadOffset` of a message of `payloadLen` bytes. `allocOk` is
     * whether `calloc` succeeds when the chunk starts a message. The copy
     * is unchecked in the source, so the chunk must fit in the buffer.
     */
    method OnChunk(payloadOffset: nat, payloadLen: nat, data: seq<byte>, allocOk: bool)
      requires Valid() && phase == Running
      requires payloadOffset == 0 ==> |data| <= payloadLen + 1
      requires payloadOffset != 0 && dbuf != null ==> payloadOffset + |data| <= dbuf.Length
      modifies this, dbuf
      ensures Valid()
      // a chunk at offset 0 frees the previous buffer, even one still in the queue,
      // and installs a zero-filled buffer of payloadLen + 1 bytes
      ensures payloadOffset == 0 && allocOk ==>
        fresh(dbuf) && dbuf.Length == payloadLen + 1 &&
        dbuf[..] == Overwrite(Zeros(payloadLen + 1), 0, data) &&
        allocations == old(allocations) + {dbuf}
      // if that allocation fails no buffer remains and the handler returns at once
      ensures payloadOffset == 0 && !allocOk ==>
        dbuf == null && queue == old(queue) && allocations == old(allocations) &&
        frees == old(frees) + Released(old(dbuf))
      // a later chunk writes exactly its bytes at its offset into the same buffer
      ensures payloadOffset != 0 ==>
        dbuf == old(dbuf) && allocations == old(allocations) &&
        (old(dbuf) != null ==> dbuf[..] == Overwrite(old(dbuf[..]), payloadOffset, data))
      // the hand-off: the current buffer (possibly NULL) goes to the queue, and stays in dbuf;
      // if the queue is full it is freed, and still stays in dbuf
      ensures payloadOffset != 0 || allocOk ==>
        var handOff := HandsOff(payloadLen, payloadOffset, |data|);
        var sent := handOff && |old(queue)| < QUEUE_LENGTH;
        queue == old(queue) + (if sent then [Message(dbuf, payloadLen, false)] else []) &&
        frees == old(frees) + (if payloadOffset == 0 then Released(old(dbuf)) else multiset{})
                            + (if handOff && !sent then Released(dbuf) else multiset{})
      ensures phase == old(phase) && client == old(client) && registered == old(registered)
      ensures transport == old(transport)
    {
      if payloadOffset == 0 {
        var ok := Restart(payloadLen, allocOk);
        if !ok {
          return;
        }
      }

      if dbuf != null {
        Memcpy(dbuf, payloadOffset, data);
      }

      if HandsOff(payloadLen, payloadOffset, |data|) {
        HandOff(payloadLen);
      }
    }

    /**
     * The start of a message: free the previous buffer and allocate a
     * zero-filled one of `payloadLen + 1` bytes; `ok` is false when the
     * allocation fails, and then no buffer remains.
     */
    method Restart(payloadLen: nat, allocOk: bool) returns (ok: bool)
      requires Valid()
      modifies this`dbuf, this`allocations, this`frees
      ensures Valid()
      ensures ok == allocOk
      ensures frees == old(frees) + Released(old(dbuf))
      ensures ok ==> fresh(dbuf) && dbuf[..] == Zeros(payloadLen + 1) && allocations == old(allocations) + {dbuf}
      ensures !ok ==> dbuf == null && allocations == old(allocations)
    {
      frees := frees + Released(dbuf);
      ok := allocOk;
      if !ok {
        dbuf := null;
        return;
      }
      dbuf := new byte[payloadLen + 1](_ => 0);
      allocations := allocations + {dbuf};
    }

    /**
     * The hand-off once the completion test passes: queue the current
     * buffer, possibly NULL, as an inbound message of `payloadLen` bytes;
     * if the queue is full, free it instead. `dbuf` is not reset either way.
     */
    method HandOff(payloadLen: nat)
      requires Valid()
      modifies this`queue, this`frees
      ensures Valid()
      ensures |old(queue)| < QUEUE_LENGTH ==>
        queue == old(queue) + [Message(dbuf, payloadLen, false)] && frees == old(frees)
      ensures |old(queue)| == QUEUE_LENGTH ==>
        queue == old(queue) && frees == old(frees) + Released(dbuf)
    {
      var message := Message(dbuf, payloadLen, false);
      var ok := Send(message);
      if !ok {
        frees := frees + Released(dbuf);
      }
    }

    /**
     * One iteration of the consumer loop of `sockets_task`: receive with a
     * 5 s timeout; skip a NULL entry; send an outbox entry and free it;
     * leave an inbound entry alone (its decoding is commented out, and so is
     * its free). Sending reads `len` bytes of the buffer.
     */
    method ConsumerStep()
      requires Valid() && phase == Running
      requires queue != [] && queue[0].isOutbox && queue[0].buf != null ==> queue[0].len <= queue[0].buf.Length
      modifies this
      ensures Valid()
      ensures old(queue) == [] ==> queue == [] && transport == old(transport) && frees == old(frees)
      ensures old(queue) != [] ==>
        var m := old(queue)[0];
        queue == old(queue)[1..] &&
        if m.buf == null || !m.isOutbox then
          transport == old(transport) && frees == old(frees)
        else
          transport == old(transport) + [SendBin(m.buf[..m.len])] && frees == old(frees) + multiset{m.buf}
      ensures phase == old(phase) && client == old(client) && registered == old(registered)
      ensures dbuf == old(dbuf) && allocations == old(allocations)
    {
      if queue == [] {
        return;
      }
      var message := queue[0];
      queue := queue[1..];
      if message.buf == null {
        return;
      }
      if message.isOutbox {
        transport := transport + [SendBin(message.buf[..message.len])];
        frees := frees + multiset{message.buf};
        return;
      }
    }

    /**
     * The credential poll loop, then the registration of `event_handler`
     * for Wi-Fi disconnection and IP acquisition, which happens only once a
     * valid certificate has been read.
     */
    method AwaitCredentials(readings: seq<CryptoState>) returns (ready: bool)
      requires Valid() && phase == AwaitingCredentials
      modifies this
      ensures Valid()
      ensures ready <==> ValidCert in readings
      ensures phase == (if ready then HandlersRegistered else AwaitingCredentials)
      ensures registered == (if ready then {WifiEvent, IpEvent} else {})
      ensures !client
      ensures queue == old(queue) && dbuf == old(dbuf) && transport == old(transport)
      ensures allocations == old(allocations) && frees == old(frees)
    {
      var delays;
      delays, ready := PollCredentials(readings);
      if ready {
        registered := {WifiEvent, IpEvent};
        phase := HandlersRegistered;
      }
    }

    /**
     * The rest of the set-up of `sockets_task`: create the websocket client
     * (certificate and TLS configuration are not modelled) and register
     * `websocket_event_handler` with it. `initOk` is whether
     * `esp_websocket_client_init` returns a handle; when it returns NULL the
     * task enters its consumer loop all the same, with no client.
     */
    method CreateClient(initOk: bool)
      requires Valid() && phase == HandlersRegistered
      modifies this
      ensures Valid()
      ensures phase == Running && client == initOk
      ensures registered == old(registered)
      ensures queue == old(queue) && dbuf == old(dbuf) && transport == old(transport)
      ensures allocations == old(allocations) && frees == old(frees)
    {
      client := initOk;
      phase := Running;
    }

    /** `sockets_connect`: start the client, or nothing while there is no client. */
    method Connect()
      requires Valid()
      modifies this`transport
      ensures Valid()
      ensures transport == if client then old(transport) + [Start] else old(transport)
    {
      if !client {
        return;
      }
      transport := transport + [Start];
    }

    /**
     * `sockets_disconnect` as written: its guard returns when the client
     * EXISTS, so it never closes a live client and calls close on a NULL
     * handle when there is none.
     */
    method Disconnect()
      requires Valid()
      modifies this`transport
      ensures Valid()
      ensures transport == if client then old(transport) else old(transport) + [Close(false)]
    {
      if client {
        return;
      }
      transport := transport + [Close(client)];
    }

    /**
     * `event_handler`, for an event of a registered base: a Wi-Fi event
     * disconnects, an IP event connects.
     */
    method EventHandler(base: EventBase)
      requires Valid() && base in registered
      modifies this`transport
      ensures Valid()
      ensures base == WifiEvent ==> transport == if client then old(transport) else old(transport) + [Close(false)]
      ensures base == IpEvent ==> transport == if client then old(transport) + [Start] else old(transport)
    {
      if base == WifiEvent {
        Disconnect();
      }
      if base == IpEvent {
        Connect();
      }
    }
  }

  /**
   * A message after the previous one was queued: the offset-0 chunk of the
   * second frees the first's buffer while the queue still holds it.
   */
  method FreeWhileQueued(s: SocketsState, first: seq<byte>, secondLen: nat, second: seq<byte>)
    returns (b: array<byte>)
    requires s.Valid() && s.phase == Running && |s.queue| + 1 < QUEUE_LENGTH
    requires |second| <= secondLen + 1
    modifies s, s.dbuf
    ensures exists i :: 0 <= i < |s.queue| && s.queue[i].buf == b
    ensures b in s.frees && s.dbuf != b
  {
    ghost var before := s.queue;
    s.OnChunk(0, |first|, first, true);
    b := s.dbuf;
    assert s.queue[|before|].buf == b;
    s.OnChunk(0, secondLen, second, true);
    assert s.queue[|before|].buf == b;
  }

  /**
   * A message whose only chunk arrives while the queue is full: its buffer
   * is freed when the send fails, but `dbuf` still points to it, and the
   * next offset-0 chunk frees it a second time.
   */
  method DoubleFreeAfterFailedSend(s: SocketsState, first: seq<byte>, secondLen: nat, second: seq<byte>)
    returns (b: array<byte>)
    requires s.Valid() && s.phase == Running && |s.queue| == QUEUE_LENGTH
    requires |second| <= secondLen + 1
    modifies s, s.dbuf
    ensures s.frees[b] == 2
    ensures s.queue == old(s.queue)
  {
    s.OnChunk(0, |first|, first, true);
    b := s.dbuf;
    s.OnChunk(0, secondLen, second, true);
  }

  /**
   * A failed allocation at offset 0 leaves `dbuf` NULL, and the next chunk
   * of the same message queues a NULL buffer.
   */
  method NullAfterAllocFailure(s: SocketsState, payloadLen: nat, first: seq<byte>, offset: nat, next: seq<byte>)
    requires s.Valid() && s.phase == Running && |s.queue| < QUEUE_LENGTH
    requires |first| <= payloadLen + 1 && offset > 0 && |next| <= payloadLen
    modifies s, s.dbuf
    ensures s.queue == old(s.queue) + [Message(null, payloadLen, false)]
  {
    s.OnChunk(0, payloadLen, first, false);
    s.OnChunk(offset, payloadLen, next, true);
  }

  /** The bytes of `chunks`, one after the other. */
  function Concat(chunks: seq<seq<byte>>): seq<byte>
  {
    if chunks == [] then [] else Concat(chunks[..|chunks| - 1]) + chunks[|chunks| - 1]
  }

  /**
   * A message delivered as `chunks`, in order, each at the offset where the
   * previous ones end, while the queue has room for one entry per chunk:
   * the queue gains one entry per chunk, every one of them the same buffer
   * `b`, and `b` ends up holding the whole message.
   */
  method ChunksQueuedOncePerChunk(s: SocketsState, payloadLen: nat, chunks: seq<seq<byte>>)
    returns (b: array<byte>)
    requires s.Valid() && s.phase == Running && |s.queue| + |chunks| <= QUEUE_LENGTH
    requires |chunks| > 0 && |chunks[0]| > 0 && |Concat(chunks)| == payloadLen
    modifies s, s.dbuf
    ensures s.queue == old(s.queue) + seq(|chunks|, _ => Message(b, payloadLen, false))
    ensures b.Length == payloadLen + 1 && b[..payloadLen] == Concat(chunks)
  {
    ghost var queue0 := s.queue;
    assert chunks[..1] == [chunks[0]];
    assert Concat(chunks[..1]) == chunks[0];
    ConcatPrefixLength(chunks, 1);
    s.OnChunk(0, payloadLen, chunks[0], true);
    b := s.dbuf;
    var offset := |chunks[0]|;
    var i := 1;
    while i < |chunks|
      invariant 1 <= i <= |chunks|
      invariant s.Valid() && s.phase == Running && s.dbuf == b
      invariant b.Length == payloadLen + 1
      invariant offset == |Concat(chunks[..i])| && offset <= payloadLen
      invariant b[..offset] == Concat(chunks[..i])
      invariant s.queue == queue0 + seq(i, _ => Message(b, payloadLen, false))
      modifies s, b
    {
      ConcatPrefixLength(chunks, i + 1);
      assert chunks[..i + 1][..i] == chunks[..i];
      assert Concat(chunks[..i + 1]) == Concat(chunks[..i]) + chunks[i];
      assert offset > 0 by { ConcatPrefixLength(chunks, 1); ConcatMonotone(chunks, 1, i); }
      ghost var before := b[..];
      s.OnChunk(offset, payloadLen, chunks[i], true);
      assert b[..offset + |chunks[i]|] == Concat(chunks[..i + 1]) by {
        assert b[..] == Overwrite(before, offset, chunks[i]);
        assert before[..offset] == Concat(chunks[..i]);
      }
      offset := offset + |chunks[i]|;
      i := i + 1;
    }
    assert chunks[..|chunks|] == chunks;
  }

  /** The length of the concatenation of the first `n` chunks never exceeds that of all of them. */
  lemma {:induction false} ConcatPrefixLength(chunks: seq<seq<byte>>, n: nat)
    requires n <= |chunks|
    ensures |Concat(chunks[..n])| <= |Concat(chunks)|
    decreases |chunks| - n
  {
    if n < |chunks| {
      ConcatPrefixLength(chunks, n + 1);
      assert chunks[..n + 1][..n] == chunks[..n];
    } else {
      assert chunks[..n] == chunks;
    }
  }

  /** Concatenating more chunks never shortens the result. */
  lemma {:induction false} ConcatMonotone(chunks: seq<seq<byte>>, m: nat, n: nat)
    requires m <= n <= |chunks|
    ensures |Concat(chunks[..m])| <= |Concat(chunks[..n])|
    decreases n - m
  {
    if m < n {
      ConcatMonotone(chunks, m, n - 1);
      assert chunks[..n][..n - 1] == chunks[..n - 1];
    }
  }

  /**
   * A message whose first chunk is handed off while the queue is full: the
   * buffer is freed, `dbuf` still points to it, and the next chunk is copied
   * into the freed buffer.
   */
  method CopyIntoFreedBuffer(s: SocketsState, payloadLen: nat, first: seq<byte>, next: seq<byte>)
    returns (b: array<byte>)
    requires s.Valid() && s.phase == Running && |s.queue| == QUEUE_LENGTH
    requires 0 < |first| && |first| + |next| <= payloadLen
    modifies s, s.dbuf
    ensures b in s.frees && s.dbuf == b
    ensures b.Length == payloadLen + 1 && b[..|first| + |next|] == first + next
    ensures s.queue == old(s.queue)
  {
    s.OnChunk(0, payloadLen, first, true);
    b := s.dbuf;
    s.OnChunk(|first|, payloadLen, next, true);
    assert b[..|first| + |next|] == first + next;
  }
}
