/**
 * The BleHapticDial object (Esp32_BLE_HapticDial.hpp/.cpp): its fields, its
 * constructor defaults, and the methods that update button, dial, connection
 * and battery state. Each method is specified by the matching transition of
 * DialSpec applied to the state before the call.
 */
module HapticDial {
  import opened CTypes
  import DialReport
  import PowerPolicy
  import DialSpec

  // Microsoft's vendor ID and the Surface Dial product ID the device presents.
  const MsVid: uint16 := 0x045E
  const MsPid: uint16 := 0x0905
  const MsVer: uint16 := 0x01

  const DefaultDeviceName: string := "ESP32 HapticDial"
  const DefaultManufacturer: string := "Espressif"
  const DefaultBatteryLevel: uint8 := 255
  const DefaultDebounceMs: uint32 := 10
  /** Initial values of `_ble_adv_time` (milliseconds) and `_ble_adv_sleep_s` (seconds). */
  const DefaultAdvTimeMs: uint32 := 5000
  const DefaultAdvSleepSeconds: uint32 := 20

  class BleHapticDial {
    const deviceName: string
    const deviceManufacturer: string
    const vid: uint16
    const pid: uint16
    const version: uint16
    var batteryLevel: uint8
    var buttonStatus: bool
    var connected: bool
    var dialDegree: uint16
    const debounceMs: uint32
    const bleAdvTimeMs: uint32
    const bleAdvSleepSeconds: uint32

    /** The calls made into the transport and the chip so far. */
    ghost var trace: seq<DialSpec.Event>

    function Cfg(): DialSpec.Config
    {
      DialSpec.Config(deviceName, deviceManufacturer, vid, pid, version,
                      debounceMs, bleAdvTimeMs, bleAdvSleepSeconds)
    }

    ghost function State(): DialSpec.DialState
      reads this
    {
      DialSpec.DialState(buttonStatus, dialDegree, connected, batteryLevel, trace)
    }

    /** Every report sent so far was followed by the configured debounce wait. */
    ghost predicate Valid()
      reads this
    {
      DialSpec.Debounced(trace, debounceMs)
    }

    constructor (deviceName: string := DefaultDeviceName,
                 deviceManufacturer: string := DefaultManufacturer,
                 vid: uint16 := MsVid,
                 pid: uint16 := MsPid,
                 version: uint16 := MsVer,
                 batteryLevel: uint8 := DefaultBatteryLevel,
                 debounceTime: uint32 := DefaultDebounceMs)
      ensures Valid()
      ensures Cfg() == DialSpec.Config(deviceName, deviceManufacturer, vid, pid, version,
                                       debounceTime, DefaultAdvTimeMs, DefaultAdvSleepSeconds)
      ensures State() == DialSpec.Initial(batteryLevel)
    {
      this.deviceName := deviceName;
      this.deviceManufacturer := deviceManufacturer;
      this.vid := vid;
      this.pid := pid;
      this.version := version;
      this.batteryLevel := batteryLevel;
      this.debounceMs := debounceTime;
      this.buttonStatus := false;
      this.connected := false;
      this.dialDegree := 0;
      this.bleAdvTimeMs := DefaultAdvTimeMs;
      this.bleAdvSleepSeconds := DefaultAdvSleepSeconds;
      this.trace := [];
    }

    method Reset()
      requires Valid()
      modifies this
      ensures Valid()
      ensures State() == DialSpec.Reset(old(State()))
    {
      buttonStatus := false;
      dialDegree := 0;
    }

    /** `begin` without the transport set-up, which is not modelled. */
    method Begin()
      requires Valid()
      modifies this
      ensures Valid()
      ensures State() == DialSpec.Begin(Cfg(), old(State()))
    {
      Reset();
      var micros := PowerPolicy.TimerWakeupMicros(bleAdvSleepSeconds);
      trace := trace + [DialSpec.TimerWakeup(micros)];
    }

    method End()
      requires Valid()
      modifies this
      ensures Valid()
      ensures State() == DialSpec.End(old(State()))
    {
      Reset();
    }

    method IsConnected() returns (c: bool)
      ensures c == connected
    {
      c := connected;
    }

    method SetBatteryLevel(level: uint8)
      requires Valid()
      modifies this
      ensures Valid()
      ensures State() == DialSpec.SetBatteryLevel(old(State()), level)
    {
      batteryLevel := level;
    }

    method SendReport()
      requires Valid()
      modifies this
      ensures Valid()
      ensures State() == DialSpec.SendReport(Cfg(), old(State()))
    {
      var report := DialReport.FromState(buttonStatus, dialDegree);
      var c := IsConnected();
      if c {
        trace := trace + [DialSpec.Notify(DialReport.Pack(report)), DialSpec.Debounce(debounceMs)];
      }
    }

    method OnConnect()
      requires Valid()
      modifies this
      ensures Valid()
      ensures State() == DialSpec.OnConnect(old(State()))
    {
      connected := true;
    }

    method OnDisconnect()
      requires Valid()
      modifies this
      ensures Valid()
      ensures State() == DialSpec.OnDisconnect(old(State()))
    {
      connected := false;
    }

    method Button(pressed: bool)
      requires Valid()
      modifies this
      ensures Valid()
      ensures State() == DialSpec.Button(Cfg(), old(State()), pressed)
    {
      if pressed != buttonStatus {
        buttonStatus := pressed;
        SendReport();
      }
    }

    method Press()
      requires Valid()
      modifies this
      ensures Valid()
      ensures State() == DialSpec.Press(Cfg(), old(State()))
    {
      Button(true);
    }

    method Release()
      requires Valid()
      modifies this
      ensures Valid()
      ensures State() == DialSpec.Release(Cfg(), old(State()))
    {
      Button(false);
    }

    method Click()
      requires Valid()
      modifies this
      ensures Valid()
      ensures State() == DialSpec.Click(Cfg(), old(State()))
    {
      Press();
      Release();
    }

    method IsPressed() returns (p: bool)
      ensures p == buttonStatus
    {
      p := buttonStatus;
    }

    /** The stored uint16_t returned as int16_t: the same 16 bits read as signed. */
    method GetDialDegrees() returns (d: int16)
      ensures d == Uint16ToInt16(dialDegree)
      ensures Int16ToUint16(d) == dialDegree
    {
      d := Uint16ToInt16(dialDegree);
    }
  }

  /** `BleHapticDial dial;` in the application: a dial built with every default. */
  method NewDefaultDial() returns (dial: BleHapticDial)
    ensures fresh(dial) && dial.Valid()
    ensures dial.vid == 0x045E && dial.pid == 0x0905 && dial.version == 0x01
    ensures dial.deviceName == "ESP32 HapticDial" && dial.deviceManufacturer == "Espressif"
    ensures dial.batteryLevel == 255 && dial.debounceMs == 10
    ensures dial.bleAdvTimeMs == 5000 && dial.bleAdvSleepSeconds == 20
    ensures !dial.buttonStatus && !dial.connected && dial.dialDegree == 0
    ensures DialSpec.Sent(dial.trace) == []
  {
    dial := new BleHapticDial();
  }

  /** A connected dial, pressed twice: one report, and the dial reads as pressed. */
  method PressTwice(dial: BleHapticDial) returns (pressed: bool)
    requires dial.Valid() && dial.connected && !dial.buttonStatus
    modifies dial
    ensures pressed && dial.Valid()
    ensures |DialSpec.Sent(dial.trace)| == |DialSpec.Sent(old(dial.trace))| + 1
  {
    dial.Press();
    dial.Press();
    pressed := dial.IsPressed();
    DialSpec.PressTwiceSendsOnce(dial.Cfg(), old(dial.State()));
  }
}
