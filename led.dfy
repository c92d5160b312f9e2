/**
 * The status-light task of main/led/led.cpp: a static frame buffer of four
 * bytes per light unit, of which only the fourth byte of each unit is ever
 * written, with a flag that flips on every tick.
 */
module Led {
  import opened Bytes

  /** Frames per second of the light task. */
  const FPS: nat := 2

  /** Bytes per light unit in the frame buffer. */
  const BYTES_PER_UNIT: nat := 4

  /** The delay between two ticks, `pdMS_TO_TICKS(1000 / FPS)`, in milliseconds. */
  function TickDelayMs(): (ms: nat)
    ensures ms * FPS == 1000
    ensures ms == 500
  {
    1000 / FPS
  }

  /** The byte that the C conversion of `bool` to `uint8_t` stores. */
  function FlagByte(on: bool): (b: byte)
    ensures on <==> b == 1
    ensures !on <==> b == 0
  {
    if on then 1 else 0
  }

  /** The unit that frame index `k` belongs to, and its position within the unit. */
  lemma UnitIndex(n: nat, i: nat, k: nat)
    requires i < n && k < BYTES_PER_UNIT
    ensures 0 <= i * BYTES_PER_UNIT + k < n * BYTES_PER_UNIT
    ensures (i * BYTES_PER_UNIT + k) / BYTES_PER_UNIT == i
    ensures (i * BYTES_PER_UNIT + k) % BYTES_PER_UNIT == k
  {
  }

  /**
   * The frame `s` after the per-unit loop has stored the flag `on` into the
   * fourth byte of each of its units; the other bytes are those of `s`.
   */
  function WithFlag(s: seq<byte>, on: bool): (r: seq<byte>)
    ensures |r| == |s|
  {
    seq(|s|, i requires 0 <= i < |s| => if i % BYTES_PER_UNIT == 3 then FlagByte(on) else s[i])
  }

  /**
   * Every write index of the loop lies in the buffer, lands on the flag, and
   * the three colour bytes of each unit are left as they were.
   */
  lemma WithFlagAt(s: seq<byte>, n: nat, on: bool, i: nat)
    requires |s| == n * BYTES_PER_UNIT && i < n
    ensures i * BYTES_PER_UNIT + 3 < |s|
    ensures WithFlag(s, on)[i * BYTES_PER_UNIT + 3] == FlagByte(on)
    ensures forall j :: i * BYTES_PER_UNIT <= j < i * BYTES_PER_UNIT + 3 ==> WithFlag(s, on)[j] == s[j]
  {
    forall j | i * BYTES_PER_UNIT <= j < i * BYTES_PER_UNIT + BYTES_PER_UNIT
      ensures j < |s| && j % BYTES_PER_UNIT == j - i * BYTES_PER_UNIT
    {
      UnitIndex(n, i, j - i * BYTES_PER_UNIT);
    }
  }

  /** Storing the flag twice leaves only the second flag: a tick forgets the previous flag. */
  lemma WithFlagOverwrites(s: seq<byte>, a: bool, b: bool)
    ensures WithFlag(WithFlag(s, a), b) == WithFlag(s, b)
  {
  }

  /**
   * The frame the task transmits when the flag is `on`: the static buffer
   * starts all zero (`= { 0 }`), so every byte is zero except each unit's
   * fourth, which holds the flag.
   */
  function Frame(n: nat, on: bool): (f: seq<byte>)
    ensures |f| == n * BYTES_PER_UNIT
    ensures forall k :: 0 <= k < |f| ==> f[k] == if k % BYTES_PER_UNIT == 3 then FlagByte(on) else 0
  {
    WithFlag(Zeros(n * BYTES_PER_UNIT), on)
  }

  /**
   * Two consecutive ticks restore the buffer: from the frame carrying `on`,
   * the flag flips to `!on` and back, and the buffer is the frame it was.
   */
  lemma {:induction false} TwoTicksRestoreFrame(n: nat, on: bool)
    ensures WithFlag(WithFlag(Frame(n, on), !on), on) == Frame(n, on)
  {
    WithFlagOverwrites(Frame(n, on), !on, on);
    WithFlagOverwrites(Zeros(n * BYTES_PER_UNIT), on, on);
  }

  /**
   * One tick of `led_task`: flip `is_on`, then for every unit `i` store it
   * into `led_buffer[i * 4 + 3]`, in place.
   */
  method Tick(ledBuffer: array<byte>, ledCount: nat, isOn: bool) returns (nowOn: bool)
    requires ledBuffer.Length == ledCount * BYTES_PER_UNIT
    modifies ledBuffer
    ensures nowOn == !isOn
    ensures ledBuffer[..] == WithFlag(old(ledBuffer[..]), nowOn)
  {
    nowOn := !isOn;
    for i := 0 to ledCount
      invariant forall j :: 0 <= j < ledBuffer.Length && j / BYTES_PER_UNIT < i ==>
        ledBuffer[j] == WithFlag(old(ledBuffer[..]), nowOn)[j]
      invariant forall j :: 0 <= j < ledBuffer.Length && i <= j / BYTES_PER_UNIT ==>
        ledBuffer[j] == old(ledBuffer[j])
    {
      UnitIndex(ledCount, i, 3);
      ledBuffer[i * BYTES_PER_UNIT + 3] := FlagByte(nowOn);
      forall j | 0 <= j < ledBuffer.Length && j / BYTES_PER_UNIT == i
        ensures j == i * BYTES_PER_UNIT + j % BYTES_PER_UNIT
      {
      }
    }
  }

  /**
   * `led_task` running `ticks` iterations of its endless loop over
   * `ledCount` units: `frames` are the buffers handed to the transmitter,
   * in order, and `isOn` is the flag afterwards.
   */
  method LedTask(ledCount: nat, ticks: nat) returns (frames: seq<seq<byte>>, isOn: bool)
    ensures |frames| == ticks
    ensures isOn <==> ticks % 2 == 1
    ensures forall k :: 0 <= k < ticks ==> frames[k] == Frame(ledCount, k % 2 == 0)
    ensures forall k :: 0 <= k < ticks ==> |frames[k]| == ledCount * BYTES_PER_UNIT
    ensures forall k: nat :: k + 2 < ticks ==> frames[k + 2] == frames[k]
    ensures forall k: nat :: k + 1 < ticks ==> frames[k + 1] != frames[k] || ledCount == 0
  {
    isOn := false;
    var ledBuffer := new byte[ledCount * BYTES_PER_UNIT](_ => 0);
    assert ledBuffer[..] == Frame(ledCount, false);
    frames := [];
    while |frames| < ticks
      invariant |frames| <= ticks
      invariant isOn <==> |frames| % 2 == 1
      invariant ledBuffer.Length == ledCount * BYTES_PER_UNIT
      invariant ledBuffer[..] == Frame(ledCount, isOn)
      invariant forall k :: 0 <= k < |frames| ==> frames[k] == Frame(ledCount, k % 2 == 0)
    {
      isOn := Tick(ledBuffer, ledCount, isOn);
      WithFlagOverwrites(Zeros(ledCount * BYTES_PER_UNIT), !isOn, isOn);
      frames := frames + [ledBuffer[..]];
    }
    if ledCount > 0 {
      WithFlagAt(Zeros(ledCount * BYTES_PER_UNIT), ledCount, true, 0);
      WithFlagAt(Zeros(ledCount * BYTES_PER_UNIT), ledCount, false, 0);
    }
  }
}
