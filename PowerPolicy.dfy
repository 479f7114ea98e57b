/**
 * Timing and power decisions of the dial: what `AdvCallbacks::onStopped` does
 * when advertising stops, the wake-up timer interval that `begin` programs, and
 * the debounce busy-wait `delay_ms` that follows every report.
 */
module PowerPolicy {
  import opened CTypes

  /** BLE_HS_ETIMEOUT of the NimBLE host: advertising stopped because its duration elapsed. */
  const BleHsEtimeout: int := 13

  /** What the device does once advertising has stopped. */
  datatype StopAction = StayAwake | DeepSleep

  /**
   * `AdvCallbacks::onStopped`: only reason 0 (a client is connecting) returns
   * early; every other reason, the advertising timeout included, falls through
   * to `esp_deep_sleep_start`.
   */
  function OnAdvertisingStopped(reason: int): (action: StopAction)
    ensures action == StayAwake <==> reason == 0
  {
    if reason == 0 then StayAwake
    else if reason == BleHsEtimeout then DeepSleep
    else DeepSleep
  }

  /** Advertising that times out puts the device to sleep. */
  lemma TimeoutSleeps()
    ensures OnAdvertisingStopped(BleHsEtimeout) == DeepSleep
  {
  }

  const MicrosPerSecond: nat := 1_000_000

  /**
   * `_ble_adv_sleep_s * 1000000` as `begin` computes it: a uint32_t times an
   * int is evaluated in 32-bit unsigned arithmetic before it is widened to the
   * uint64_t parameter of `esp_sleep_enable_timer_wakeup`.
   */
  function TimerWakeupMicros(sleepSeconds: uint32): (micros: uint64)
    ensures micros < 0x1_0000_0000
    ensures (sleepSeconds * MicrosPerSecond - micros) % 0x1_0000_0000 == 0
  {
    (sleepSeconds * MicrosPerSecond) % 0x1_0000_0000
  }

  /** The product is exact precisely for sleep intervals up to 4294 seconds. */
  lemma TimerWakeupExactIff(sleepSeconds: uint32)
    ensures TimerWakeupMicros(sleepSeconds) == sleepSeconds * MicrosPerSecond <==> sleepSeconds <= 4294
  {
  }

  /**
   * The end of a debounce wait, `m + (ms * 1000)` in uint64_t arithmetic, for a
   * wait of `ms` milliseconds starting at timer reading `m` (microseconds).
   */
  function Deadline(m: uint64, ms: uint64): (e: uint64)
    ensures (m + ms * 1000 - e) % 0x1_0000_0000_0000_0000 == 0
  {
    (m + (ms * 1000) % 0x1_0000_0000_0000_0000) % 0x1_0000_0000_0000_0000
  }

  /** The test `m > e` of `delay_ms` detects exactly the deadlines that wrapped past 2^64. */
  lemma {:induction false} DeadlineWrapsIff(m: uint64, ms: uint64)
    ensures m > Deadline(m, ms) <==> m + (ms * 1000) % 0x1_0000_0000_0000_0000 >= 0x1_0000_0000_0000_0000
  {
    var step := (ms * 1000) % 0x1_0000_0000_0000_0000;
    assert 0 <= step < 0x1_0000_0000_0000_0000;
    if m + step >= 0x1_0000_0000_0000_0000 {
      assert Deadline(m, ms) == m + step - 0x1_0000_0000_0000_0000;
    } else {
      assert Deadline(m, ms) == m + step;
    }
  }

  /**
   * `delay_ms`: the busy-wait on `esp_timer_get_time`. The timer is a
   * parameter: `clock` lists the readings it returns on successive calls.
   * The result is the index of the reading that ended the wait, or None when
   * the readings ran out first.
   */
  method DelayMs(ms: uint64, clock: seq<uint64>) returns (end: Option<nat>)
    ensures |clock| > 0 && ms == 0 ==> end == Some(0)
    ensures end.Some? ==> end.value < |clock|
    ensures end.Some? && ms > 0 ==> 1 <= end.value && clock[end.value] >= Deadline(clock[0], ms)
    // Without wrap-around no reading before the deadline ends the wait...
    ensures end.Some? && ms > 0 && clock[0] <= Deadline(clock[0], ms) ==>
      forall j :: 1 <= j < end.value ==> clock[j] < Deadline(clock[0], ms)
    // ... and with it the wait first sees the timer itself wrap to at or below
    // the deadline, then waits while it stays below.
    ensures end.Some? && ms > 0 && clock[0] > Deadline(clock[0], ms) ==>
      exists k :: (1 <= k < end.value && clock[k] <= Deadline(clock[0], ms)
        && (forall j :: 1 <= j < k ==> clock[j] > Deadline(clock[0], ms))
        && (forall j :: k < j < end.value ==> clock[j] < Deadline(clock[0], ms)))
    ensures end.None? && |clock| > 0 && clock[0] <= Deadline(clock[0], ms) ==>
      ms > 0 && forall j :: 1 <= j < |clock| ==> clock[j] < Deadline(clock[0], ms)
    // Running out of readings with wrap-around: either the timer never wrapped,
    // or it wrapped and stayed below the deadline to the last reading.
    ensures end.None? && |clock| > 0 && ms > 0 && clock[0] > Deadline(clock[0], ms) ==>
      (forall j :: 1 <= j < |clock| ==> clock[j] > Deadline(clock[0], ms))
      || exists k :: (1 <= k < |clock| && clock[k] <= Deadline(clock[0], ms)
        && (forall j :: 1 <= j < k ==> clock[j] > Deadline(clock[0], ms))
        && (forall j :: k < j < |clock| ==> clock[j] < Deadline(clock[0], ms)))
  {
    if |clock| == 0 {
      return None;
    }
    var m := clock[0];
    if ms == 0 {
      return Some(0);
    }
    var e := Deadline(m, ms);
    var i := 1;
    if m > e {
      while i < |clock| && clock[i] > e
        invariant 1 <= i <= |clock|
        invariant forall j :: 1 <= j < i ==> clock[j] > e
      {
        i := i + 1;
      }
      if i == |clock| {
        return None;
      }
      i := i + 1;
    }
    ghost var start := i;
    while i < |clock| && clock[i] < e
      invariant start <= i <= |clock|
      invariant m <= e ==> start == 1
      invariant m > e ==> 2 <= start && clock[start - 1] <= e
      invariant m > e ==> forall j :: 1 <= j < start - 1 ==> clock[j] > e
      invariant forall j :: start <= j < i ==> clock[j] < e
    {
      i := i + 1;
    }
    if i == |clock| {
      return None;
    }
    return Some(i);
  }

  /** Without wrap-around, a completed debounce wait lasts at least `ms` milliseconds of timer time. */
  lemma DebounceLastsAtLeast(m: uint64, ms: uint64, now: uint64)
    requires m + ms * 1000 < 0x1_0000_0000_0000_0000
    requires now >= Deadline(m, ms)
    ensures now - m >= ms * 1000
  {
  }
}
