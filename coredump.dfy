/**
 * `attempt_coredump_upload` of main/sockets/sockets.cpp: read the core-dump
 * partition, decide whether it is erased (every byte 0xFF), and if not,
 * base64-encode it, hand it to `upload_coredump` and erase the partition.
 * The partition is a byte sequence; reading, erasing, allocating and the
 * mbedtls encoder are foreign calls whose outcomes are parameters.
 */
module Coredump {
  import opened Bytes

  /** The value of every byte of an erased flash region. */
  const ERASED_BYTE: byte := 0xFF

  /** The region holds no core dump: every byte is the erased value. */
  predicate IsErased(region: seq<byte>)
  {
    forall i :: 0 <= i < |region| ==> region[i] == ERASED_BYTE
  }

  /** A region of `n` bytes after `esp_partition_erase_range` succeeded on all of it. */
  function ErasedRegion(n: nat): (r: seq<byte>)
    ensures |r| == n
    ensures IsErased(r)
  {
    seq(n, _ => ERASED_BYTE)
  }

  /**
   * The scan loop: look at the first `size` bytes of `data` and stop at the
   * first byte that is not 0xFF.
   */
  method ScanErased(data: array<byte>, size: nat) returns (isErased: bool)
    requires size <= data.Length
    ensures isErased <==> IsErased(data[..size])
  {
    isErased := true;
    var i := 0;
    while i < size
      invariant 0 <= i <= size
      invariant isErased
      invariant forall j :: 0 <= j < i ==> data[j] == ERASED_BYTE
    {
      if data[i] != ERASED_BYTE {
        isErased := false;
        break;
      }
      i := i + 1;
    }
  }

  /** The two heap buffers of the procedure. */
  datatype Buffer = CoreDumpData | EncodedData

  /** Where the procedure stopped. */
  datatype Outcome =
    | NoPartition          // esp_partition_find_first found nothing
    | DataAllocFailed      // malloc(core_dump_size + 1) returned NULL
    | ReadFailed           // esp_partition_read did not return ESP_OK
    | AlreadyErased        // the region is all 0xFF: nothing to upload
    | EncodedAllocFailed   // malloc(encoded_size + 1) returned NULL
    | EncodeFailed         // the encoding call reported an error
    | Uploaded(encoded: seq<byte>, eraseOk: bool)  // handed to upload_coredump, then erased (or not)

  /**
   * What the size query `mbedtls_base64_encode(NULL, 0, &encoded_size, src, n)`
   * reports: the length of the encoding plus one byte for its terminating
   * NUL. `base64` is the foreign encoder, `None` when it cannot encode `src`;
   * the query then reports no usable size.
   */
  function SizeQuery(base64: seq<byte> -> Option<seq<byte>>, src: seq<byte>): nat
  {
    match base64(src)
    case Some(e) => |e| + 1
    case None => 0
  }

  /**
   * The encoding call `mbedtls_base64_encode(dst, dlen, &encoded_size, src, n)`
   * with `dlen == capacity`: it fails unless the encoding and its
   * terminating NUL fit in `capacity` bytes.
   */
  function EncodeInto(capacity: nat, base64: seq<byte> -> Option<seq<byte>>, src: seq<byte>): Option<seq<byte>>
  {
    match base64(src)
    case Some(e) => if |e| + 1 <= capacity then Some(e) else None
    case None => None
  }

  /**
   * The size the query reports is exactly enough: encoding into a buffer of
   * that size fails only when the encoder itself fails, and one byte less
   * is too small.
   */
  lemma EncodeIntoQueriedSize(base64: seq<byte> -> Option<seq<byte>>, src: seq<byte>)
    ensures EncodeInto(SizeQuery(base64, src), base64, src) == base64(src)
    ensures base64(src).Some? ==> EncodeInto(SizeQuery(base64, src) - 1, base64, src).None?
  {
  }

  /**
   * One run of `attempt_coredump_upload`. `partition` is the core-dump
   * partition's contents (`None` when it is not found); `after` is its
   * contents when the procedure returns. `allocs` and `frees` list the heap
   * buffers obtained and released, in order (`free(NULL)` releases nothing).
   * `upload_coredump` has an empty body, so an upload changes nothing.
   */
  method AttemptCoredumpUpload(
    partition: Option<seq<byte>>,
    dataAllocOk: bool,
    readOk: bool,
    encodedAllocOk: bool,
    base64: seq<byte> -> Option<seq<byte>>,
    eraseOk: bool)
    returns (outcome: Outcome, after: Option<seq<byte>>, allocs: seq<Buffer>, frees: seq<Buffer>)
    // the decision ladder, stage by stage
    ensures outcome == NoPartition <==> partition.None?
    ensures outcome == DataAllocFailed <==> partition.Some? && !dataAllocOk
    ensures outcome == ReadFailed <==> partition.Some? && dataAllocOk && !readOk
    ensures outcome == AlreadyErased <==> partition.Some? && dataAllocOk && readOk && IsErased(partition.value)
    ensures outcome == EncodedAllocFailed <==>
      partition.Some? && dataAllocOk && readOk && !IsErased(partition.value) && !encodedAllocOk
    ensures outcome == EncodeFailed <==>
      partition.Some? && dataAllocOk && readOk && !IsErased(partition.value) && encodedAllocOk &&
      base64(partition.value).None?
    ensures outcome.Uploaded? <==>
      partition.Some? && dataAllocOk && readOk && !IsErased(partition.value) && encodedAllocOk &&
      base64(partition.value).Some?
    ensures outcome.Uploaded? ==>
      Some(outcome.encoded) == base64(partition.value) && outcome.eraseOk == eraseOk
    // the region is erased only after a successful upload and a successful erase
    ensures after == if outcome.Uploaded? && eraseOk then Some(ErasedRegion(|partition.value|)) else partition
    ensures after.Some? && after != partition ==> IsErased(after.value)
    // every buffer obtained is released exactly once, on every exit path
    ensures frees == allocs
    ensures allocs == [] || allocs == [CoreDumpData] || allocs == [CoreDumpData, EncodedData]
    ensures allocs == [] <==> outcome == NoPartition || outcome == DataAllocFailed
    ensures allocs == [CoreDumpData, EncodedData] <==> outcome.Uploaded? || outcome == EncodeFailed
  {
    outcome, after, allocs, frees := NoPartition, partition, [], [];
    if partition.None? {
      return;
    }
    var region := partition.value;
    var coreDumpSize := |region|;
    var coreDumpData: array?<byte> := null;
    var encodedData: array?<byte> := null;

    label exit: {
      if !dataAllocOk {
        outcome := DataAllocFailed;
        break exit;
      }
      coreDumpData := new byte[coreDumpSize + 1];
      allocs := allocs + [CoreDumpData];
      if !readOk {
        outcome := ReadFailed;
        break exit;
      }
      forall i | 0 <= i < coreDumpSize {
        coreDumpData[i] := region[i];
      }
      assert coreDumpData[..coreDumpSize] == region;

      var isErased := ScanErased(coreDumpData, coreDumpSize);
      if isErased {
        outcome := AlreadyErased;
        break exit;
      }

      if !encodedAllocOk {
        outcome := EncodedAllocFailed;
        break exit;
      }
      var encodedSize := SizeQuery(base64, coreDumpData[..coreDumpSize]);
      encodedData := new byte[encodedSize + 1];
      allocs := allocs + [EncodedData];
      var encoded := EncodeInto(encodedSize, base64, coreDumpData[..coreDumpSize]);
      EncodeIntoQueriedSize(base64, region);
      if encoded.None? {
        outcome := EncodeFailed;
        break exit;
      }
      var text := encoded.value;
      forall i | 0 <= i < |text| {
        encodedData[i] := text[i];
      }
      encodedData[|text|] := 0;
      outcome := Uploaded(text, eraseOk);

      if eraseOk {
        after := Some(ErasedRegion(coreDumpSize));
      }
    }

    if coreDumpData != null {
      frees := frees + [CoreDumpData];
    }
    if encodedData != null {
      frees := frees + [EncodedData];
    }
  }

  /**
   * The procedure runs on every transport connection, so it runs again after
   * a reconnect: once a run has uploaded and erased the region, the next run
   * finds it erased, uploads nothing and leaves it as it is, whatever its
   * own allocations and foreign calls would do.
   */
  method AttemptOnReconnect(
    partition: seq<byte>,
    dataAllocOk: bool, readOk: bool, encodedAllocOk: bool,
    base64: seq<byte> -> Option<seq<byte>>,
    dataAllocOk2: bool, readOk2: bool, encodedAllocOk2: bool, eraseOk2: bool)
    returns (first: Outcome, second: Outcome, after: Option<seq<byte>>)
    ensures first.Uploaded? ==> !second.Uploaded?
    ensures first.Uploaded? && dataAllocOk2 && readOk2 ==> second == AlreadyErased
    ensures first.Uploaded? ==> after == Some(ErasedRegion(|partition|))
  {
    var mid, allocs, frees;
    first, mid, allocs, frees :=
      AttemptCoredumpUpload(Some(partition), dataAllocOk, readOk, encodedAllocOk, base64, true);
    second, after, allocs, frees :=
      AttemptCoredumpUpload(mid, dataAllocOk2, readOk2, encodedAllocOk2, base64, eraseOk2);
  }
}
