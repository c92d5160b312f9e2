# Lantern firmware: sockets and status light, modelled in Dafny

This project models the connectivity core of the Lantern firmware
(`main/sockets/sockets.cpp`) and the frame loop of its status light
(`main/led/led.cpp`), and proves what that code does, quirks included.

- `bytes.dfy` (module `Bytes`): the byte type, `Option`, and the
  zero-filled and `memcpy`-patched views of a buffer.
- `sockets.dfy` (module `Sockets`): the state of `sockets.cpp` as a class
  `SocketsState`. It holds the message queue (a FIFO of capacity 10), the
  client handle, the static reassembly buffer `dbuf`, and the calls made
  into the websocket library. Ghost bookkeeping records every buffer
  `calloc` returned and every `free` of a non-NULL pointer. The steps are:
  - the DATA case of `websocket_event_handler` (`OnChunk`);
  - one iteration of the consumer loop of `sockets_task` (`ConsumerStep`);
  - the credential poll loop and the set-up after it (`PollCredentials`,
    `AwaitCredentials`, `CreateClient`);
  - `event_handler`, `sockets_connect` and `sockets_disconnect`.

  The event contexts and the task are modelled as an interleaving of these
  steps.
- `coredump.dfy` (module `Coredump`): `attempt_coredump_upload`. The
  partition is a byte sequence. Allocation, reading, erasing and the base64
  encoder are parameters. The method returns what happened, the partition
  afterwards, and the buffers it allocated and freed.
- `led.dfy` (module `Led`): one tick of `led_task` done in place on the
  frame array, and the task run for a given number of ticks.

Behaviour of the code that the contracts state as written:

- The completion test of the DATA case is `payload_len + payload_offset >= data_len`.
  It passes for every chunk that fits in its message. While the queue has
  room, a message in `k` chunks is therefore queued `k` times with the same
  buffer, the first time before it is complete. When the queue is full the
  buffer is freed instead, and the next chunk is copied into freed memory. The intended design hands a message off once, when it is
  complete; the model follows the code.
- `dbuf` is not cleared after a hand-off or after the free that follows a
  failed send. So the next offset-0 chunk frees a buffer the queue still
  holds, and after a failed send it frees the same buffer a second time.
- After a failed allocation `dbuf` is NULL. A later chunk of the same
  message queues a NULL buffer, and the consumer skips it.
- `esp_websocket_client_init` may return NULL, and the task then runs its
  consumer loop without a client.
- `sockets_disconnect` returns when the client exists. It never closes a
  live client, and before the client exists it calls close with a NULL handle.
- Inbound queue entries are neither decoded nor freed, because the decoding
  and its `free` are commented out.
- `upload_coredump` has an empty body, so an "upload" hands the encoded
  dump to nothing. The partition is still erased afterwards.

## Model

| member | source | states |
|---|---|---|
| `Bytes.Overwrite` | main/sockets/sockets.cpp:51-53 | after the copy, the bytes from the offset on hold the chunk, and every other byte is unchanged |
| `Sockets.HandsOffEveryFittingChunk` | main/sockets/sockets.cpp:55 | the completion test passes for every chunk inside its message, first and middle chunks too |
| `Sockets.PollCredentials` | main/sockets/sockets.cpp:75-81 | the poll ends exactly when a valid certificate is read; it waits once for each earlier non-valid reading, and keeps polling if none is valid |
| `Sockets.Memcpy` | main/sockets/sockets.cpp:52 | the destination array becomes `Overwrite` of its old contents |
| `Sockets.SocketsState.constructor` | main/sockets/sockets.cpp:142-147 | initial state: empty queue, no client, no handlers, no buffer, nothing allocated or freed |
| `Sockets.SocketsState.Send` | main/sockets/sockets.cpp:61 | the send succeeds exactly when fewer than 10 entries are queued; it appends the entry, otherwise the queue is unchanged; the queue never exceeds 10 |
| `Sockets.SocketsState.OnChunk` | main/sockets/sockets.cpp:41-67 | offset 0 frees the old buffer and installs a zeroed `payload_len + 1`-byte buffer. On allocation failure `dbuf` is NULL and nothing is copied or queued. Otherwise exactly the chunk's bytes are written at its offset. When the test passes, `(dbuf, payload_len, inbound)` is queued, or `dbuf` is freed if the queue is full, and `dbuf` still points to it |
| `Sockets.SocketsState.Restart` | main/sockets/sockets.cpp:42-49 | frees the previous buffer (nothing for NULL); on success installs a fresh zero-filled buffer of `payload_len + 1` bytes, on failure leaves NULL |
| `Sockets.SocketsState.HandOff` | main/sockets/sockets.cpp:55-65 | queues the current buffer (possibly NULL) with `payload_len` as inbound, or, on a full queue, frees it; `dbuf` is not reset |
| `Sockets.SocketsState.ConsumerStep` | main/sockets/sockets.cpp:107-130 | an empty queue changes nothing. Otherwise the head is removed. A NULL or inbound head has no other effect: inbound is not decoded and not freed. An outbox head is sent (its first `len` bytes) and freed exactly once |
| `Sockets.SocketsState.AwaitCredentials` | main/sockets/sockets.cpp:75-84 | the Wi-Fi and IP handlers are registered exactly when a valid certificate was read, and no client exists yet |
| `Sockets.SocketsState.CreateClient` | main/sockets/sockets.cpp:102-107 | the task moves on to its consumer loop whether or not `esp_websocket_client_init` returned a handle; the client exists exactly when it did; queue, buffer and transport calls unchanged |
| `Sockets.SocketsState.Connect` | main/sockets/sockets.cpp:149-156 | starts the client when it exists and does nothing while it is NULL |
| `Sockets.SocketsState.Disconnect` | main/sockets/sockets.cpp:158-165 | does nothing while the client exists; without a client it calls close on a NULL handle; the invariant keeps every close call on a NULL handle |
| `Sockets.SocketsState.EventHandler` | main/sockets/sockets.cpp:133-140 | a Wi-Fi event goes to disconnect (no effect once the client exists), an IP event to connect |
| `Sockets.FreeWhileQueued` | main/sockets/sockets.cpp:41-65 | after one complete message, the next offset-0 chunk frees the buffer still held by the queue |
| `Sockets.DoubleFreeAfterFailedSend` | main/sockets/sockets.cpp:41-65 | on a full queue a one-chunk message's buffer is freed at the failed send and again by the next offset-0 chunk: freed twice |
| `Sockets.NullAfterAllocFailure` | main/sockets/sockets.cpp:41-65 | after a failed allocation, the next chunk of the message queues a NULL buffer with `payload_len` |
| `Sockets.ChunksQueuedOncePerChunk` | main/sockets/sockets.cpp:41-65 | a message delivered in k in-order chunks, while the queue has room, adds k queue entries that all hold the same buffer, and that buffer ends up holding the whole message |
| `Sockets.CopyIntoFreedBuffer` | main/sockets/sockets.cpp:41-65 | when the queue is full, the buffer of a message's first chunk is freed at the failed send, `dbuf` still points to it, and the next chunk is copied into the freed buffer |
| `Coredump.ScanErased` | main/sockets/sockets.cpp:212-220 | the scan with early exit reports erased exactly when all `core_dump_size` bytes are 0xFF |
| `Coredump.EncodeIntoQueriedSize` | main/sockets/sockets.cpp:228-241 | encoding into a buffer of the size the query reported fails only when the encoder itself fails; one byte less (no room for the NUL) always fails |
| `Coredump.AttemptCoredumpUpload` | main/sockets/sockets.cpp:181-255 | each stage (partition, allocation, read, erased check, second allocation, encoding) stops the procedure exactly when it fails; with the queried size, encoding fails exactly when the encoder fails. An erased region uploads nothing and is left as is. The region is erased only after every stage succeeded and the erase succeeded. Every buffer allocated is freed exactly once, in allocation order |
| `Coredump.AttemptOnReconnect` | main/sockets/sockets.cpp:34-37 | a run on the next connection after an upload and erase uploads nothing and leaves the region erased |
| `Led.UnitIndex` | main/led/led.cpp:45 | index `i*4+k` of unit `i < LED_COUNT` is inside the `LED_COUNT*4` buffer and belongs to unit `i` at position `k` |
| `Led.WithFlagAt` | main/led/led.cpp:44-46 | the write index `i*4+3` is in bounds and holds the flag; bytes `i*4+0..2` keep their value |
| `Led.WithFlagOverwrites` | main/led/led.cpp:44-46 | writing the flag twice leaves only the second |
| `Led.Frame` | main/led/led.cpp:17 | the transmitted frame is zero everywhere except each unit's fourth byte, which holds the flag |
| `Led.TwoTicksRestoreFrame` | main/led/led.cpp:41-46 | two consecutive ticks restore the frame (period 2) |
| `Led.Tick` | main/led/led.cpp:42-46 | the flag flips, and the buffer becomes its old contents with the new flag in every unit's fourth byte |
| `Led.LedTask` | main/led/led.cpp:15-52 | over `ticks` iterations, frame `k` carries the flag `k` even. The flag ends on exactly after an odd number of ticks. Frames repeat with period 2, and consecutive frames differ whenever there is a unit |

## Left out

- Websocket client configuration: URI, port, certificate fetch, TLS and signing context (main/sockets/sockets.cpp:86-100). These are foreign calls; only whether `esp_websocket_client_init` returned a handle is modelled.
- The network effect of `esp_websocket_client_start`, `_close` and `_send_bin`. They are recorded as calls, in order, and nothing else.
- FreeRTOS: task creation, delays, queue timeouts and real preemption. The contexts are an interleaving of the class's steps. Under that interleaving a send with a timeout fails exactly when the queue is full.
- The WEBSOCKET_EVENT_CONNECTED and _DISCONNECTED cases (main/sockets/sockets.cpp:34-40). CONNECTED runs `attempt_coredump_upload`, which is `Coredump.AttemptCoredumpUpload`, a separate method because the class does not hold the partition. DISCONNECTED only logs.
- The commented-out protobuf decoding and `handle_message` (main/sockets/sockets.cpp:120-128), and the commented-out body of `upload_coredump` (main/sockets/sockets.cpp:167-179). This code is not live, so no message handling is modelled.
- `esp_partition_find_first`, `esp_partition_read`, `esp_partition_erase_range`, `malloc`/`calloc` success, and `mbedtls_base64_encode` (its size query and its encoding). Their outcomes are parameters of the methods.
- Coredump.AttemptCoredumpUpload: when the encoder cannot encode the region at all (a size overflow inside mbedtls), the size query is taken to report 0 and the encoding call to fail; the value mbedtls reports in that case is not modelled. A failed erase leaves the region unchanged; a partial erase is not modelled. `malloc` contents, which are indeterminate in C, are zero here.
- Integer widths: the event fields are C `int`, and `payload_len + 1` or `core_dump_size + 1` overflowing is not modelled.
- Sockets.PollCredentials: the endless poll is cut off at the end of the given readings, and reports that it is still polling.
- Sockets.SocketsState.ConsumerStep: one iteration of the endless consumer loop; the loop is these steps repeated.
- Led.LedTask: runs a given number of iterations of the endless loop. `LED_COUNT` comes from `pinout.h`, which is not part of this model, so it is a parameter.
- RMT channel and encoder set-up, transmit and wait (main/led/led.cpp:19-39,48-49). These are hardware; a transmitted frame is recorded as the buffer's contents.
- `LEDEffect_t` and the effect, colour, speed, brightness and fade setters (main/led/led.h:5-19), and `notify_touch` (main/sockets/sockets.h:12). They are declared without definitions in this code.
- `main/main.cpp` (start-up only) and all logging.
