/**
 * The behaviour of a BleHapticDial object as pure transitions on its state.
 * The transport is observed only through `trace`, the log of calls the object
 * makes into it: each report handed to the radial-controller characteristic,
 * each debounce wait that follows one, and the wake-up timer `begin` arms.
 */
module DialSpec {
  import opened CTypes
  import DialReport
  import PowerPolicy

  /** A call from the dial into the transport or the chip. */
  datatype Event =
    | Notify(report: seq<uint8>)      // setValue(report) + notify() on the input report characteristic
    | Debounce(ms: uint32)            // delay_ms(_debounce_ms)
    | TimerWakeup(micros: uint64)     // esp_sleep_enable_timer_wakeup(...)

  /** The fields fixed at construction. */
  datatype Config = Config(
    deviceName: string,
    manufacturer: string,
    vid: uint16,
    pid: uint16,
    version: uint16,
    debounceMs: uint32,
    advTimeMs: uint32,
    advSleepSeconds: uint32)

  /** The fields the methods update, and the log of calls made so far. */
  datatype DialState = DialState(
    button: bool,
    dial: uint16,
    connected: bool,
    battery: uint8,
    trace: seq<Event>)

  /** The reports handed to the transport, in order. */
  function Sent(trace: seq<Event>): seq<seq<uint8>>
  {
    if |trace| == 0 then []
    else (if trace[0].Notify? then [trace[0].report] else []) + Sent(trace[1..])
  }

  lemma {:induction false} SentAppend(a: seq<Event>, b: seq<Event>)
    ensures Sent(a + b) == Sent(a) + Sent(b)
  {
    if |a| > 0 {
      assert (a + b)[0] == a[0];
      assert (a + b)[1..] == a[1..] + b;
      SentAppend(a[1..], b);
    } else {
      assert a + b == b;
    }
  }

  /** Every report in the log is followed at once by a debounce wait of `ms`. */
  ghost predicate Debounced(trace: seq<Event>, ms: uint32)
  {
    forall i :: 0 <= i < |trace| && trace[i].Notify? ==> i + 1 < |trace| && trace[i + 1] == Debounce(ms)
  }

  lemma DebouncedAppend(a: seq<Event>, b: seq<Event>, ms: uint32)
    ensures Debounced(a, ms) && Debounced(b, ms) ==> Debounced(a + b, ms)
  {
    if Debounced(a, ms) && Debounced(b, ms) {
      forall i | 0 <= i < |a + b| && (a + b)[i].Notify?
      ensures i + 1 < |a + b| && (a + b)[i + 1] == Debounce(ms)
    {
      if i < |a| {
        assert a[i].Notify?;
      } else {
        assert b[i - |a|].Notify?;
      }
    }
    }
  }

  /** The two bytes `sendReport` builds from the current button and dial value. */
  function CurrentReport(s: DialState): seq<uint8>
  {
    DialReport.Pack(DialReport.FromState(s.button, s.dial))
  }

  /** A freshly constructed dial: released, dial 0, not connected, nothing sent. */
  function Initial(battery: uint8): (s: DialState)
    ensures !s.button && s.dial == 0 && !s.connected && s.battery == battery
    ensures Sent(s.trace) == []
  {
    DialState(false, 0, false, battery, [])
  }

  /** `reset`: button released, dial back to 0, nothing else changes. */
  function Reset(s: DialState): (r: DialState)
    ensures !r.button && r.dial == 0
    ensures r.connected == s.connected && r.battery == s.battery && r.trace == s.trace
  {
    s.(button := false, dial := 0)
  }

  /** `end` returns the state to its reset values. */
  function End(s: DialState): (r: DialState)
    ensures !r.button && r.dial == 0
    ensures r.connected == s.connected && r.battery == s.battery && r.trace == s.trace
  {
    Reset(s)
  }

  /**
   * `begin`, less the transport set-up: reset the state and arm the wake-up
   * timer with the advertising sleep interval.
   */
  function Begin(cfg: Config, s: DialState): (r: DialState)
    ensures !r.button && r.dial == 0
    ensures r.connected == s.connected && r.battery == s.battery
    ensures r.trace == s.trace + [TimerWakeup(PowerPolicy.TimerWakeupMicros(cfg.advSleepSeconds))]
    ensures Sent(r.trace) == Sent(s.trace)
    ensures Debounced(s.trace, cfg.debounceMs) ==> Debounced(r.trace, cfg.debounceMs)
  {
    var event := [TimerWakeup(PowerPolicy.TimerWakeupMicros(cfg.advSleepSeconds))];
    SentAppend(s.trace, event);
    DebouncedAppend(s.trace, event, cfg.debounceMs);
    Reset(s).(trace := s.trace + event)
  }

  function OnConnect(s: DialState): (r: DialState)
    ensures r.connected
    ensures r.button == s.button && r.dial == s.dial && r.battery == s.battery && r.trace == s.trace
  {
    s.(connected := true)
  }

  function OnDisconnect(s: DialState): (r: DialState)
    ensures !r.connected
    ensures r.button == s.button && r.dial == s.dial && r.battery == s.battery && r.trace == s.trace
  {
    s.(connected := false)
  }

  /** `setBatteryLevel`: the stored level; the forwarding to the HID service is not modelled. */
  function SetBatteryLevel(s: DialState, level: uint8): (r: DialState)
    ensures r.battery == level
    ensures r.button == s.button && r.dial == s.dial && r.connected == s.connected && r.trace == s.trace
  {
    s.(battery := level)
  }

  /**
   * `sendReport`: while connected, exactly one report (the current button and
   * dial) goes out, followed by the debounce wait; while disconnected nothing
   * happens. The dial state itself never changes.
   */
  function SendReport(cfg: Config, s: DialState): (r: DialState)
    ensures r.button == s.button && r.dial == s.dial && r.connected == s.connected && r.battery == s.battery
    ensures Sent(r.trace) == Sent(s.trace) + (if s.connected then [CurrentReport(s)] else [])
    ensures s.connected ==> r.trace == s.trace + [Notify(CurrentReport(s)), Debounce(cfg.debounceMs)]
    ensures !s.connected ==> r == s
    ensures Debounced(s.trace, cfg.debounceMs) ==> Debounced(r.trace, cfg.debounceMs)
  {
    if s.connected then
      var events := [Notify(CurrentReport(s)), Debounce(cfg.debounceMs)];
      assert Sent(events) == [CurrentReport(s)] by {
        assert Sent([Notify(CurrentReport(s))]) == [CurrentReport(s)];
        assert Sent([Debounce(cfg.debounceMs)]) == [];
        SentAppend([Notify(CurrentReport(s))], [Debounce(cfg.debounceMs)]);
        assert events == [Notify(CurrentReport(s))] + [Debounce(cfg.debounceMs)];
      }
      SentAppend(s.trace, events);
      DebouncedAppend(s.trace, events, cfg.debounceMs);
      s.(trace := s.trace + events)
    else
      s
  }

  /**
   * `button`: edge-triggered. A change of the button state is stored and
   * reported; the current state again changes nothing and sends nothing.
   */
  function Button(cfg: Config, s: DialState, pressed: bool): (r: DialState)
    ensures r.button == pressed
    ensures r.dial == s.dial && r.connected == s.connected && r.battery == s.battery
    ensures pressed == s.button ==> r == s
    ensures Sent(r.trace) == Sent(s.trace) +
      (if pressed != s.button && s.connected
       then [DialReport.Pack(DialReport.FromState(pressed, s.dial))] else [])
    ensures Debounced(s.trace, cfg.debounceMs) ==> Debounced(r.trace, cfg.debounceMs)
  {
    if pressed != s.button then SendReport(cfg, s.(button := pressed)) else s
  }

  function Press(cfg: Config, s: DialState): (r: DialState)
    ensures r.button
    ensures r.dial == s.dial && r.connected == s.connected && r.battery == s.battery
    ensures s.button ==> r == s
    ensures Sent(r.trace) == Sent(s.trace) +
      (if !s.button && s.connected then [DialReport.Pack(DialReport.FromState(true, s.dial))] else [])
    ensures Debounced(s.trace, cfg.debounceMs) ==> Debounced(r.trace, cfg.debounceMs)
  {
    Button(cfg, s, true)
  }

  function Release(cfg: Config, s: DialState): (r: DialState)
    ensures !r.button
    ensures r.dial == s.dial && r.connected == s.connected && r.battery == s.battery
    ensures !s.button ==> r == s
    ensures Sent(r.trace) == Sent(s.trace) +
      (if s.button && s.connected then [DialReport.Pack(DialReport.FromState(false, s.dial))] else [])
    ensures Debounced(s.trace, cfg.debounceMs) ==> Debounced(r.trace, cfg.debounceMs)
  {
    Button(cfg, s, false)
  }

  /**
   * `click`: press, then release. While connected, a released dial sends two
   * reports (pressed, then released) and a pressed one only the release; while
   * disconnected nothing is sent. Either way the dial ends released.
   */
  function Click(cfg: Config, s: DialState): (r: DialState)
    ensures !r.button
    ensures r.dial == s.dial && r.connected == s.connected && r.battery == s.battery
    ensures Sent(r.trace) == Sent(s.trace) +
      (if !s.connected then []
       else if s.button then [DialReport.Pack(DialReport.FromState(false, s.dial))]
       else [DialReport.Pack(DialReport.FromState(true, s.dial)), DialReport.Pack(DialReport.FromState(false, s.dial))])
    ensures !s.connected ==> r.trace == s.trace
    ensures Debounced(s.trace, cfg.debounceMs) ==> Debounced(r.trace, cfg.debounceMs)
  {
    Release(cfg, Press(cfg, s))
  }

  /** Repeating a button transition is a no-op: the dispatcher is edge-triggered. */
  lemma ButtonIdempotent(cfg: Config, s: DialState, pressed: bool)
    ensures Button(cfg, Button(cfg, s, pressed), pressed) == Button(cfg, s, pressed)
  {
  }

  /** Pressing twice while connected, from released, sends exactly one report and leaves the dial pressed. */
  lemma PressTwiceSendsOnce(cfg: Config, s: DialState)
    requires s.connected && !s.button
    ensures Press(cfg, Press(cfg, s)).button
    ensures |Sent(Press(cfg, Press(cfg, s)).trace)| == |Sent(s.trace)| + 1
  {
    ButtonIdempotent(cfg, s, true);
  }

  /** A click from released while connected sends exactly two reports: button bit 1, then 0. */
  lemma ClickSendsPressThenRelease(cfg: Config, s: DialState)
    requires s.connected && !s.button
    ensures |Sent(Click(cfg, s).trace)| == |Sent(s.trace)| + 2
    ensures DialReport.Unpack(Sent(Click(cfg, s).trace)[|Sent(s.trace)|]) ==
      Some(DialReport.Report(true, s.dial % 0x8000))
    ensures DialReport.Unpack(Sent(Click(cfg, s).trace)[|Sent(s.trace)| + 1]) ==
      Some(DialReport.Report(false, s.dial % 0x8000))
  {
    DialReport.StateRoundTrip(true, s.dial);
    DialReport.StateRoundTrip(false, s.dial);
  }

  /** Resetting twice is resetting once. */
  lemma ResetIdempotent(s: DialState)
    ensures Reset(Reset(s)) == Reset(s)
  {
  }
}
