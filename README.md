# HapticDial: a verified model of the BLE haptic dial

The firmware turns an ESP32-C3 into a Bluetooth Low Energy HID radial
controller (a "Surface Dial"-style puck). Its core is the `BleHapticDial`
object in `lib/Esp32BleHapticDial/Esp32_BLE_HapticDial.hpp`/`.cpp`. The object:

- keeps four fields: the button status, the dial value, a connected flag and
  the battery level;
- sends a two-byte input report whenever the button changes state, and only
  while a host is connected;
- waits a debounce interval after each report;
- when advertising stops, decides whether to put the chip into deep sleep;
- publishes a constant HID report descriptor that describes the input report
  (report ID 1) and a haptic-feedback collection (report ID 2).

The project models that core in five modules, plus one of C integer types:

- `CTypes`: `uint8_t` … `uint64_t` and `int16_t` as bounded integers.
  It also holds the int16/uint16 reinterpretation and little-endian byte
  values.
- `DialReport`: the `HID_DialReport_Data_t` union as pack/unpack functions on
  two bytes (button in bit 0, rotation in bits 1-15, low byte first). It has
  round-trip lemmas and the sign extension a host applies to the 15-bit
  rotation.
- `PowerPolicy`: the advertising-stop decision of `AdvCallbacks::onStopped`.
  It also holds the 32-bit arithmetic of the wake-up timer that `begin` arms,
  and `delay_ms` as a polling loop over a given list of timer readings,
  including its uint64 wrap-around branch.
- `DialSpec`: every `BleHapticDial` operation as a pure transition on the
  state `(button, dial, connected, battery, trace)`. `trace` is the log of
  calls into the transport: each report notified, each debounce wait, the
  wake-up timer. The lemmas state the edge-triggered behaviour: a repeated
  press sends nothing, and a click sends press then release.
- `HapticDial`: the class `BleHapticDial` with the source's fields and
  constructor defaults. Its methods update the fields in place and append to
  a ghost `trace`. Each method is proved to perform the matching `DialSpec`
  transition and to keep every report followed by its debounce wait.
- `ReportDescriptor`: `_HapticDialHIDReportDescriptor` as a list of short
  items, one per source line, and its bytes. It also holds a walker for the
  short-item grammar of "Device Class Definition for HID 1.11"
  (section 6.2.2.2) and an interpreter of the global items of
  section 6.2.2.7 that yields each report's fields. It proves that:
  - the corrected descriptor is well formed and parses back from its bytes;
  - in the corrected descriptor, report 1 is exactly the 1-bit button and the 15-bit rotation
    (-3600..3600), 16 bits, matching the two bytes the dial sends;
  - report 2 has a 40-bit output and a 120-bit feature report.

  Five items of the table as written, at three places, announce fewer data
  bytes than follow them (see Findings). The descriptor these results are about is corrected:
  it gives those items the size code of the bytes written after them. The
  bytes as written (`ReportMapAsWritten`) are modelled beside it. A lemma
  shows they differ from the corrected bytes in exactly those five prefix
  bytes. Other lemmas show what a host's walk makes of the bytes as written.

## Model

| member | source | states |
|---|---|---|
| CTypes.Int16ToUint16 | lib/Esp32BleHapticDial/Esp32_BLE_HapticDial.hpp:32 | an `int16_t` stored in the `uint16_t` field becomes the unique value congruent to it modulo 2^16; it is non-negative exactly when the stored value is below 0x8000 |
| CTypes.Uint16ToInt16 | lib/Esp32BleHapticDial/Esp32_BLE_HapticDial.cpp:320-323 | reading the `uint16_t` as `int16_t` gives the unique value congruent modulo 2^16, and converting back gives the same bits |
| CTypes.Int16RoundTrip | lib/Esp32BleHapticDial/Esp32_BLE_HapticDial.cpp:320-323 | int16 → uint16 → int16 is the identity, so storing a signed dial value and reading it back loses nothing |
| CTypes.UnsignedLE | lib/Esp32BleHapticDial/Esp32_BLE_HapticDial.cpp:47-50 | the unsigned value of n little-endian data bytes is below 256^n |
| CTypes.SignedLE | lib/Esp32BleHapticDial/Esp32_BLE_HapticDial.cpp:47-50 | the signed value of n little-endian data bytes lies in the two's-complement range of n bytes and differs from the unsigned value by 0 or 256^n |
| CTypes.UnsignedLERoundTrip | lib/Esp32BleHapticDial/Esp32_BLE_HapticDial.cpp:47-50 | storing a value in n little-endian bytes and reading it back gives the value |
| CTypes.BytesLERoundTrip | lib/Esp32BleHapticDial/Esp32_BLE_HapticDial.cpp:47-50 | reading little-endian bytes and storing the value back in as many bytes gives the bytes |
| DialReport.FromState | lib/Esp32BleHapticDial/Esp32_BLE_HapticDial.cpp:268-270 | assigning the state to the bit-fields keeps the button and stores the dial value modulo 2^15 in the 15-bit rotation |
| DialReport.Pack | lib/Esp32BleHapticDial/Esp32_BLE_HapticDial.hpp:12-22 | the union's byte view is two bytes whose little-endian value is 2·rotation + button |
| DialReport.Unpack | lib/Esp32BleHapticDial/Esp32_BLE_HapticDial.hpp:12-22 | reading the bit-fields back succeeds exactly for a two-byte report |
| DialReport.PackLayout | lib/Esp32BleHapticDial/Esp32_BLE_HapticDial.hpp:19-20 | the button is bit 0 of the first byte, the rotation's low 7 bits fill bits 1-7 of the first byte and its high 8 bits the second byte |
| DialReport.PackUnpack | lib/Esp32BleHapticDial/Esp32_BLE_HapticDial.hpp:12-22 | unpacking a packed report gives back both bit-fields |
| DialReport.UnpackPack | lib/Esp32BleHapticDial/Esp32_BLE_HapticDial.hpp:12-22 | every two-byte report is the packing of what it unpacks to |
| DialReport.StateRoundTrip | lib/Esp32BleHapticDial/Esp32_BLE_HapticDial.cpp:268-274 | what `sendReport` puts on the wire unpacks to the button and the dial value modulo 2^15 |
| DialReport.SignExtend15 | lib/Esp32BleHapticDial/Esp32_BLE_HapticDial.cpp:44-50 | a host reads the 15-bit field as a signed value in -2^14..2^14-1 congruent to the field modulo 2^15 |
| DialReport.RotationRecoveredIff | lib/Esp32BleHapticDial/Esp32_BLE_HapticDial.hpp:12-22 | a signed rotation stored as its 16-bit two's-complement value, packed and sign-extended, comes back unchanged if and only if it fits in 15 signed bits |
| DialReport.RotationInBoundsRecovered | lib/Esp32BleHapticDial/Esp32_BLE_HapticDial.cpp:49-50 | every rotation within the descriptor's logical bounds -3600..3600 survives packing, unpacking and sign extension |
| PowerPolicy.OnAdvertisingStopped | lib/Esp32BleHapticDial/Esp32_BLE_HapticDial.cpp:154-171 | the device stays awake if and only if the stop reason is 0 (a client connecting); every other reason leads to deep sleep |
| PowerPolicy.TimeoutSleeps | lib/Esp32BleHapticDial/Esp32_BLE_HapticDial.cpp:163-170 | advertising that stops with BLE_HS_ETIMEOUT puts the device into deep sleep |
| PowerPolicy.TimerWakeupMicros | lib/Esp32BleHapticDial/Esp32_BLE_HapticDial.cpp:246 | the wake-up interval is computed in 32-bit unsigned arithmetic: below 2^32 and congruent to seconds·10^6 modulo 2^32 |
| PowerPolicy.TimerWakeupExactIff | lib/Esp32BleHapticDial/Esp32_BLE_HapticDial.cpp:246 | the interval equals seconds·10^6 if and only if the sleep time is at most 4294 s |
| PowerPolicy.Deadline | lib/Esp32BleHapticDial/Esp32_BLE_HapticDial.cpp:140 | the debounce deadline is congruent to start + ms·1000 modulo 2^64 |
| PowerPolicy.DeadlineWrapsIff | lib/Esp32BleHapticDial/Esp32_BLE_HapticDial.cpp:140-141 | the test `m > e` holds if and only if start + ms·1000 overflows uint64 |
| PowerPolicy.DelayMs | lib/Esp32BleHapticDial/Esp32_BLE_HapticDial.cpp:135-149 | a zero wait ends at once, at the first reading. Otherwise the wait ends at the first reading at or past the deadline that the polling reaches. Without wrap-around, every reading before it is below the deadline. With wrap-around, the readings are first above the deadline until one is at or below it; every reading after that one, up to the end, is below the deadline. Running out of readings means that, in the same terms, the deadline was never reached: without wrap-around every reading is below it; with wrap-around either every reading stays above it, or the timer wraps and then stays below it |
| PowerPolicy.DebounceLastsAtLeast | lib/Esp32BleHapticDial/Esp32_BLE_HapticDial.cpp:135-149 | without wrap-around a completed wait spans at least ms·1000 µs of timer time |
| DialSpec.Initial | lib/Esp32BleHapticDial/Esp32_BLE_HapticDial.hpp:29-32 | a fresh dial is released, at dial 0, not connected, at the given battery level, and has sent nothing |
| DialSpec.Reset | lib/Esp32BleHapticDial/Esp32_BLE_HapticDial.cpp:188-192 | the button is released and the dial is 0; connection, battery and the sent log are unchanged |
| DialSpec.End | lib/Esp32BleHapticDial/Esp32_BLE_HapticDial.cpp:249-252 | the same as reset: released, dial 0, nothing else changes |
| DialSpec.Begin | lib/Esp32BleHapticDial/Esp32_BLE_HapticDial.cpp:194-247 | the state is reset and the wake-up timer is armed with the advertising sleep interval; nothing is sent and every report stays followed by its debounce wait |
| DialSpec.OnConnect | lib/Esp32BleHapticDial/Esp32_BLE_HapticDial.cpp:280-283 | the connected flag is set; nothing else changes |
| DialSpec.OnDisconnect | lib/Esp32BleHapticDial/Esp32_BLE_HapticDial.cpp:285-288 | the connected flag is cleared; nothing else changes |
| DialSpec.SetBatteryLevel | lib/Esp32BleHapticDial/Esp32_BLE_HapticDial.cpp:259-264 | the battery level is stored; nothing else changes |
| DialSpec.SendReport | lib/Esp32BleHapticDial/Esp32_BLE_HapticDial.cpp:266-278 | while connected, exactly one report (current button and dial) is sent, followed by the debounce wait; while disconnected nothing happens; button, dial, connection and battery never change |
| DialSpec.Button | lib/Esp32BleHapticDial/Esp32_BLE_HapticDial.cpp:290-297 | the button ends in the requested state. A report with the new button state is sent exactly when the state changes while connected. Requesting the current state changes nothing |
| DialSpec.Press | lib/Esp32BleHapticDial/Esp32_BLE_HapticDial.cpp:299-302 | the button ends pressed; a report with button 1 is sent exactly when it was released and connected; pressing a pressed dial changes nothing |
| DialSpec.Release | lib/Esp32BleHapticDial/Esp32_BLE_HapticDial.cpp:304-307 | the button ends released; a report with button 0 is sent exactly when it was pressed and connected; releasing a released dial changes nothing |
| DialSpec.Click | lib/Esp32BleHapticDial/Esp32_BLE_HapticDial.cpp:309-313 | the dial ends released. Connected and released: two reports are sent, button 1 then button 0. Connected and pressed: only the release is sent. Disconnected: nothing is sent |
| DialSpec.ButtonIdempotent | lib/Esp32BleHapticDial/Esp32_BLE_HapticDial.cpp:290-297 | requesting the same button state twice is requesting it once |
| DialSpec.PressTwiceSendsOnce | lib/Esp32BleHapticDial/Esp32_BLE_HapticDial.cpp:290-302 | pressing twice while connected and released sends exactly one report and leaves the dial pressed |
| DialSpec.ClickSendsPressThenRelease | lib/Esp32BleHapticDial/Esp32_BLE_HapticDial.cpp:309-313 | a click while connected and released sends exactly two reports, unpacking to button 1 and then button 0 with the current dial value |
| DialSpec.ResetIdempotent | lib/Esp32BleHapticDial/Esp32_BLE_HapticDial.cpp:188-192 | resetting twice is resetting once |
| HapticDial.BleHapticDial.constructor | lib/Esp32BleHapticDial/Esp32_BLE_HapticDial.hpp:42-48 | the fields take the given arguments. The advertising window is 5000 ms and the sleep interval 20 s. The state is the initial one: released, dial 0, not connected |
| HapticDial.BleHapticDial.Reset | lib/Esp32BleHapticDial/Esp32_BLE_HapticDial.cpp:188-192 | the fields change as DialSpec.Reset says |
| HapticDial.BleHapticDial.Begin | lib/Esp32BleHapticDial/Esp32_BLE_HapticDial.cpp:194-247 | the fields and the log change as DialSpec.Begin says |
| HapticDial.BleHapticDial.End | lib/Esp32BleHapticDial/Esp32_BLE_HapticDial.cpp:249-252 | the fields change as DialSpec.End says |
| HapticDial.BleHapticDial.IsConnected | lib/Esp32BleHapticDial/Esp32_BLE_HapticDial.cpp:254-257 | returns the connected flag |
| HapticDial.BleHapticDial.SetBatteryLevel | lib/Esp32BleHapticDial/Esp32_BLE_HapticDial.cpp:259-264 | the fields change as DialSpec.SetBatteryLevel says |
| HapticDial.BleHapticDial.SendReport | lib/Esp32BleHapticDial/Esp32_BLE_HapticDial.cpp:266-278 | the log changes as DialSpec.SendReport says, so each report sent is followed by the debounce wait |
| HapticDial.BleHapticDial.OnConnect | lib/Esp32BleHapticDial/Esp32_BLE_HapticDial.cpp:280-283 | the fields change as DialSpec.OnConnect says |
| HapticDial.BleHapticDial.OnDisconnect | lib/Esp32BleHapticDial/Esp32_BLE_HapticDial.cpp:285-288 | the fields change as DialSpec.OnDisconnect says |
| HapticDial.BleHapticDial.Button | lib/Esp32BleHapticDial/Esp32_BLE_HapticDial.cpp:290-297 | the fields and the log change as the edge-triggered DialSpec.Button says |
| HapticDial.BleHapticDial.Press | lib/Esp32BleHapticDial/Esp32_BLE_HapticDial.cpp:299-302 | the fields and the log change as DialSpec.Press says |
| HapticDial.BleHapticDial.Release | lib/Esp32BleHapticDial/Esp32_BLE_HapticDial.cpp:304-307 | the fields and the log change as DialSpec.Release says |
| HapticDial.BleHapticDial.Click | lib/Esp32BleHapticDial/Esp32_BLE_HapticDial.cpp:309-313 | the fields and the log change as DialSpec.Click says |
| HapticDial.BleHapticDial.IsPressed | lib/Esp32BleHapticDial/Esp32_BLE_HapticDial.cpp:315-318 | returns the button status |
| HapticDial.BleHapticDial.GetDialDegrees | lib/Esp32BleHapticDial/Esp32_BLE_HapticDial.cpp:320-323 | returns the stored uint16 read as int16, with the bit pattern unchanged |
| HapticDial.NewDefaultDial | lib/Esp32BleHapticDial/Esp32_BLE_HapticDial.hpp:42-48 | a dial built with every default has VID 0x045E, PID 0x0905, version 1, battery 255, debounce 10 ms, advertising 5000 ms and sleep 20 s. It starts released, at dial 0, not connected, with nothing sent |
| HapticDial.PressTwice | lib/Esp32BleHapticDial/Esp32_BLE_HapticDial.cpp:290-302 | on the object, two presses while connected and released send exactly one report, and `isPressed` then returns true |
| ReportDescriptor.PrefixDecomposes | lib/Esp32BleHapticDial/Esp32_BLE_HapticDial.cpp:24-132 | a prefix built as tag·16 + type·4 + size code, as each item macro builds it, yields that tag, type and size code back (HID 1.11 section 6.2.2.2) |
| ReportDescriptor.Parse | lib/Esp32BleHapticDial/Esp32_BLE_HapticDial.cpp:23-133 | what the short-item walker returns is framed (each prefix followed by the data bytes its size code announces) and flattens back to the input bytes |
| ReportDescriptor.ParseFlattenThen | lib/Esp32BleHapticDial/Esp32_BLE_HapticDial.cpp:23-133 | walking the bytes of framed items followed by more bytes yields those items, then whatever the rest walks to |
| ReportDescriptor.ParseFlatten | lib/Esp32BleHapticDial/Esp32_BLE_HapticDial.cpp:23-133 | framed items walk back out of their bytes |
| ReportDescriptor.ApplicationCollectionItems | lib/Esp32BleHapticDial/Esp32_BLE_HapticDial.cpp:24-26 | System Multi-Axis Controller application collection: the globals each item leaves in effect and the field each Input, Output or Feature item declares |
| ReportDescriptor.ApplicationCollectionWellFormed | lib/Esp32BleHapticDial/Esp32_BLE_HapticDial.cpp:24-26 | every item is a framed short item of a type and tag the HID 1.11 standard defines |
| ReportDescriptor.ApplicationCollectionLayout | lib/Esp32BleHapticDial/Esp32_BLE_HapticDial.cpp:24-26 | the fields these lines declare (size, count, logical bounds, report ID) and the globals in effect after them |
| ReportDescriptor.RadialControllerItems | lib/Esp32BleHapticDial/Esp32_BLE_HapticDial.cpp:28-31 | Radial controller: report ID 1, Digitizers Puck, physical collection: the globals each item leaves in effect and the field each Input, Output or Feature item declares |
| ReportDescriptor.RadialControllerWellFormed | lib/Esp32BleHapticDial/Esp32_BLE_HapticDial.cpp:28-31 | every item is a framed short item of a type and tag the HID 1.11 standard defines |
| ReportDescriptor.RadialControllerLayout | lib/Esp32BleHapticDial/Esp32_BLE_HapticDial.cpp:28-31 | the fields these lines declare (size, count, logical bounds, report ID) and the globals in effect after them |
| ReportDescriptor.PressButtonItems | lib/Esp32BleHapticDial/Esp32_BLE_HapticDial.cpp:33-39 | Press button: one 1-bit absolute input, 0 to 1: the globals each item leaves in effect and the field each Input, Output or Feature item declares |
| ReportDescriptor.PressButtonWellFormed | lib/Esp32BleHapticDial/Esp32_BLE_HapticDial.cpp:33-39 | every item is a framed short item of a type and tag the HID 1.11 standard defines |
| ReportDescriptor.PressButtonLayout | lib/Esp32BleHapticDial/Esp32_BLE_HapticDial.cpp:33-39 | the fields these lines declare (size, count, logical bounds, report ID) and the globals in effect after them |
| ReportDescriptor.DialUsageItems | lib/Esp32BleHapticDial/Esp32_BLE_HapticDial.cpp:41-46 | Rotating dial: Generic Desktop Dial, one 15-bit value in tenths of a degree: the globals each item leaves in effect and the field each Input, Output or Feature item declares |
| ReportDescriptor.DialUsageWellFormed | lib/Esp32BleHapticDial/Esp32_BLE_HapticDial.cpp:41-46 | every item is a framed short item of a type and tag the HID 1.11 standard defines |
| ReportDescriptor.DialUsageLayout | lib/Esp32BleHapticDial/Esp32_BLE_HapticDial.cpp:41-46 | the fields these lines declare (size, count, logical bounds, report ID) and the globals in effect after them |
| ReportDescriptor.DialBoundsItems | lib/Esp32BleHapticDial/Esp32_BLE_HapticDial.cpp:47-52 | Rotating dial, with PHYSICAL_MAXIMUM given the two data bytes written after it (see Findings): bounds -3600 to 3600, the relative input, and the end of the physical collection: the globals each item leaves in effect and the field each Input, Output or Feature item declares |
| ReportDescriptor.DialBoundsWellFormed | lib/Esp32BleHapticDial/Esp32_BLE_HapticDial.cpp:47-52 | every item is a framed short item of a type and tag the HID 1.11 standard defines (corrected, see Findings) |
| ReportDescriptor.DialBoundsLayout | lib/Esp32BleHapticDial/Esp32_BLE_HapticDial.cpp:47-52 | the fields these lines declare (size, count, logical bounds, report ID) and the globals in effect after them (corrected, see Findings) |
| ReportDescriptor.HapticFeedbackItems | lib/Esp32BleHapticDial/Esp32_BLE_HapticDial.cpp:54-57 | Haptic feedback: report ID 2, Simple Haptic Controller, logical collection: the globals each item leaves in effect and the field each Input, Output or Feature item declares |
| ReportDescriptor.HapticFeedbackWellFormed | lib/Esp32BleHapticDial/Esp32_BLE_HapticDial.cpp:54-57 | every item is a framed short item of a type and tag the HID 1.11 standard defines |
| ReportDescriptor.HapticFeedbackLayout | lib/Esp32BleHapticDial/Esp32_BLE_HapticDial.cpp:54-57 | the fields these lines declare (size, count, logical bounds, report ID) and the globals in effect after them |
| ReportDescriptor.WaveformListItems | lib/Esp32BleHapticDial/Esp32_BLE_HapticDial.cpp:59-61 | Waveform list: Haptics Waveform List, logical collection: the globals each item leaves in effect and the field each Input, Output or Feature item declares |
| ReportDescriptor.WaveformListWellFormed | lib/Esp32BleHapticDial/Esp32_BLE_HapticDial.cpp:59-61 | every item is a framed short item of a type and tag the HID 1.11 standard defines |
| ReportDescriptor.WaveformListLayout | lib/Esp32BleHapticDial/Esp32_BLE_HapticDial.cpp:59-61 | the fields these lines declare (size, count, logical bounds, report ID) and the globals in effect after them |
| ReportDescriptor.Ordinal3Items | lib/Esp32BleHapticDial/Esp32_BLE_HapticDial.cpp:62-70 | Waveform list, ordinal 3, with the physical bounds given the two data bytes written after them (see Findings): a constant 8-bit feature 3, physical 0x1003: the globals each item leaves in effect and the field each Input, Output or Feature item declares |
| ReportDescriptor.Ordinal3WellFormed | lib/Esp32BleHapticDial/Esp32_BLE_HapticDial.cpp:62-70 | every item is a framed short item of a type and tag the HID 1.11 standard defines (corrected, see Findings) |
| ReportDescriptor.Ordinal3Layout | lib/Esp32BleHapticDial/Esp32_BLE_HapticDial.cpp:62-70 | the fields these lines declare (size, count, logical bounds, report ID) and the globals in effect after them (corrected, see Findings) |
| ReportDescriptor.Ordinal4Items | lib/Esp32BleHapticDial/Esp32_BLE_HapticDial.cpp:71-77 | Waveform list, ordinal 4, physical bounds corrected as for ordinal 3: a constant 8-bit feature 4, physical 0x1004, and the end of the list: the globals each item leaves in effect and the field each Input, Output or Feature item declares |
| ReportDescriptor.Ordinal4WellFormed | lib/Esp32BleHapticDial/Esp32_BLE_HapticDial.cpp:71-77 | every item is a framed short item of a type and tag the HID 1.11 standard defines (corrected, see Findings) |
| ReportDescriptor.Ordinal4Layout | lib/Esp32BleHapticDial/Esp32_BLE_HapticDial.cpp:71-77 | the fields these lines declare (size, count, logical bounds, report ID) and the globals in effect after them (corrected, see Findings) |
| ReportDescriptor.DurationListItems | lib/Esp32BleHapticDial/Esp32_BLE_HapticDial.cpp:79-90 | Duration list: two 8-bit features, 0 to 4095: the globals each item leaves in effect and the field each Input, Output or Feature item declares |
| ReportDescriptor.DurationListWellFormed | lib/Esp32BleHapticDial/Esp32_BLE_HapticDial.cpp:79-90 | every item is a framed short item of a type and tag the HID 1.11 standard defines |
| ReportDescriptor.DurationListLayout | lib/Esp32BleHapticDial/Esp32_BLE_HapticDial.cpp:79-90 | the fields these lines declare (size, count, logical bounds, report ID) and the globals in effect after them |
| ReportDescriptor.AutoTriggerItems | lib/Esp32BleHapticDial/Esp32_BLE_HapticDial.cpp:92-97 | Auto trigger: one 16-bit feature, 0x1000 to 0x1004: the globals each item leaves in effect and the field each Input, Output or Feature item declares |
| ReportDescriptor.AutoTriggerWellFormed | lib/Esp32BleHapticDial/Esp32_BLE_HapticDial.cpp:92-97 | every item is a framed short item of a type and tag the HID 1.11 standard defines |
| ReportDescriptor.AutoTriggerLayout | lib/Esp32BleHapticDial/Esp32_BLE_HapticDial.cpp:92-97 | the fields these lines declare (size, count, logical bounds, report ID) and the globals in effect after them |
| ReportDescriptor.AssociatedControlItems | lib/Esp32BleHapticDial/Esp32_BLE_HapticDial.cpp:99-104 | Auto trigger associated control: a constant 32-bit feature 0x00010037: the globals each item leaves in effect and the field each Input, Output or Feature item declares |
| ReportDescriptor.AssociatedControlWellFormed | lib/Esp32BleHapticDial/Esp32_BLE_HapticDial.cpp:99-104 | every item is a framed short item of a type and tag the HID 1.11 standard defines |
| ReportDescriptor.AssociatedControlLayout | lib/Esp32BleHapticDial/Esp32_BLE_HapticDial.cpp:99-104 | the fields these lines declare (size, count, logical bounds, report ID) and the globals in effect after them |
| ReportDescriptor.IntensityItems | lib/Esp32BleHapticDial/Esp32_BLE_HapticDial.cpp:106-112 | Intensity: an 8-bit output and feature, 0 to 127: the globals each item leaves in effect and the field each Input, Output or Feature item declares |
| ReportDescriptor.IntensityWellFormed | lib/Esp32BleHapticDial/Esp32_BLE_HapticDial.cpp:106-112 | every item is a framed short item of a type and tag the HID 1.11 standard defines |
| ReportDescriptor.IntensityLayout | lib/Esp32BleHapticDial/Esp32_BLE_HapticDial.cpp:106-112 | the fields these lines declare (size, count, logical bounds, report ID) and the globals in effect after them |
| ReportDescriptor.RepeatCountItems | lib/Esp32BleHapticDial/Esp32_BLE_HapticDial.cpp:114-117 | Repeat count: an 8-bit output and feature: the globals each item leaves in effect and the field each Input, Output or Feature item declares |
| ReportDescriptor.RepeatCountWellFormed | lib/Esp32BleHapticDial/Esp32_BLE_HapticDial.cpp:114-117 | every item is a framed short item of a type and tag the HID 1.11 standard defines |
| ReportDescriptor.RepeatCountLayout | lib/Esp32BleHapticDial/Esp32_BLE_HapticDial.cpp:114-117 | the fields these lines declare (size, count, logical bounds, report ID) and the globals in effect after them |
| ReportDescriptor.RetriggerPeriodItems | lib/Esp32BleHapticDial/Esp32_BLE_HapticDial.cpp:119-122 | Retrigger period: an 8-bit output and feature: the globals each item leaves in effect and the field each Input, Output or Feature item declares |
| ReportDescriptor.RetriggerPeriodWellFormed | lib/Esp32BleHapticDial/Esp32_BLE_HapticDial.cpp:119-122 | every item is a framed short item of a type and tag the HID 1.11 standard defines |
| ReportDescriptor.RetriggerPeriodLayout | lib/Esp32BleHapticDial/Esp32_BLE_HapticDial.cpp:119-122 | the fields these lines declare (size, count, logical bounds, report ID) and the globals in effect after them |
| ReportDescriptor.WaveformCutoffTimeItems | lib/Esp32BleHapticDial/Esp32_BLE_HapticDial.cpp:124-127 | Waveform cutoff time: a 16-bit feature, up to 32767: the globals each item leaves in effect and the field each Input, Output or Feature item declares |
| ReportDescriptor.WaveformCutoffTimeWellFormed | lib/Esp32BleHapticDial/Esp32_BLE_HapticDial.cpp:124-127 | every item is a framed short item of a type and tag the HID 1.11 standard defines |
| ReportDescriptor.WaveformCutoffTimeLayout | lib/Esp32BleHapticDial/Esp32_BLE_HapticDial.cpp:124-127 | the fields these lines declare (size, count, logical bounds, report ID) and the globals in effect after them |
| ReportDescriptor.ManualTriggerItems | lib/Esp32BleHapticDial/Esp32_BLE_HapticDial.cpp:129-132 | Manual trigger: a 16-bit output, and the ends of the two open collections: the globals each item leaves in effect and the field each Input, Output or Feature item declares |
| ReportDescriptor.ManualTriggerWellFormed | lib/Esp32BleHapticDial/Esp32_BLE_HapticDial.cpp:129-132 | every item is a framed short item of a type and tag the HID 1.11 standard defines |
| ReportDescriptor.ManualTriggerLayout | lib/Esp32BleHapticDial/Esp32_BLE_HapticDial.cpp:129-132 | the fields these lines declare (size, count, logical bounds, report ID) and the globals in effect after them |
| ReportDescriptor.DialHeaderLayout | lib/Esp32BleHapticDial/Esp32_BLE_HapticDial.cpp:24-46 | the fields these lines declare, in order, and the globals in effect after them, composed from their parts |
| ReportDescriptor.DialHeaderWellFormed | lib/Esp32BleHapticDial/Esp32_BLE_HapticDial.cpp:24-46 | every item of these lines is a framed short item of a type and tag the standard defines |
| ReportDescriptor.RadialControllerRegionLayout | lib/Esp32BleHapticDial/Esp32_BLE_HapticDial.cpp:24-52 | the fields these lines declare, in order, and the globals in effect after them, composed from their parts (corrected, see Findings) |
| ReportDescriptor.RadialControllerRegionWellFormed | lib/Esp32BleHapticDial/Esp32_BLE_HapticDial.cpp:24-52 | every item of these lines is a framed short item of a type and tag the standard defines (corrected, see Findings) |
| ReportDescriptor.HapticWaveformsLayout | lib/Esp32BleHapticDial/Esp32_BLE_HapticDial.cpp:54-77 | the fields these lines declare, in order, and the globals in effect after them, composed from their parts (corrected, see Findings) |
| ReportDescriptor.HapticWaveformsWellFormed | lib/Esp32BleHapticDial/Esp32_BLE_HapticDial.cpp:54-77 | every item of these lines is a framed short item of a type and tag the standard defines (corrected, see Findings) |
| ReportDescriptor.HapticListsLayout | lib/Esp32BleHapticDial/Esp32_BLE_HapticDial.cpp:54-90 | the fields these lines declare, in order, and the globals in effect after them, composed from their parts (corrected, see Findings) |
| ReportDescriptor.HapticListsWellFormed | lib/Esp32BleHapticDial/Esp32_BLE_HapticDial.cpp:54-90 | every item of these lines is a framed short item of a type and tag the standard defines (corrected, see Findings) |
| ReportDescriptor.TriggerControlsLayout | lib/Esp32BleHapticDial/Esp32_BLE_HapticDial.cpp:92-112 | the fields these lines declare, in order, and the globals in effect after them, composed from their parts |
| ReportDescriptor.TriggerControlsWellFormed | lib/Esp32BleHapticDial/Esp32_BLE_HapticDial.cpp:92-112 | every item of these lines is a framed short item of a type and tag the standard defines |
| ReportDescriptor.PlaybackControlsLayout | lib/Esp32BleHapticDial/Esp32_BLE_HapticDial.cpp:114-132 | the fields these lines declare, in order, and the globals in effect after them, composed from their parts |
| ReportDescriptor.PlaybackControlsWellFormed | lib/Esp32BleHapticDial/Esp32_BLE_HapticDial.cpp:114-132 | every item of these lines is a framed short item of a type and tag the standard defines |
| ReportDescriptor.HapticFeedbackRegionLayout | lib/Esp32BleHapticDial/Esp32_BLE_HapticDial.cpp:54-132 | the fields these lines declare, in order, and the globals in effect after them, composed from their parts (corrected, see Findings) |
| ReportDescriptor.HapticFeedbackRegionWellFormed | lib/Esp32BleHapticDial/Esp32_BLE_HapticDial.cpp:54-132 | every item of these lines is a framed short item of a type and tag the standard defines (corrected, see Findings) |
| ReportDescriptor.DescriptorLayout | lib/Esp32BleHapticDial/Esp32_BLE_HapticDial.cpp:23-133 | the fields these lines declare, in order, and the globals in effect after them, composed from their parts (corrected, see Findings) |
| ReportDescriptor.DescriptorWellFormed | lib/Esp32BleHapticDial/Esp32_BLE_HapticDial.cpp:23-133 | every item of these lines is a framed short item of a type and tag the standard defines (corrected, see Findings) |
| ReportDescriptor.ReportMapParses | lib/Esp32BleHapticDial/Esp32_BLE_HapticDial.cpp:23-133 | every item of the report map is a well-formed short item, and the map's bytes walk back to exactly its items (corrected, see Findings) |
| ReportDescriptor.DescriptorReports | lib/Esp32BleHapticDial/Esp32_BLE_HapticDial.cpp:23-133 | the fields of any report ID and kind are those the radial controller region and the haptic groups contribute, in order (corrected, see Findings) |
| ReportDescriptor.RadialControllerReport | lib/Esp32BleHapticDial/Esp32_BLE_HapticDial.cpp:28-52 | input report 1 is exactly the 1-bit button (0..1), then the 15-bit rotation (-3600..3600). That is 16 bits, the two bytes the dial sends. Report 1 has no output and no feature fields (corrected, see Findings) |
| ReportDescriptor.HapticFeedbackReport | lib/Esp32BleHapticDial/Esp32_BLE_HapticDial.cpp:54-132 | report 2 has no input fields, a 40-bit output report and a 120-bit feature report (corrected, see Findings) |
| ReportDescriptor.DialBoundsAsWrittenParse | lib/Esp32BleHapticDial/Esp32_BLE_HapticDial.cpp:47-52 | the bytes as written walk to items out of step from PHYSICAL_MAXIMUM's second data byte on |
| ReportDescriptor.DialBoundsMisreadIllFormed | lib/Esp32BleHapticDial/Esp32_BLE_HapticDial.cpp:47-52 | exactly four of the seven misread items, those at indices 2 to 5, have the reserved type or a reserved main tag; the count is stated as 4 |
| ReportDescriptor.DialBoundsMisreadLayout | lib/Esp32BleHapticDial/Esp32_BLE_HapticDial.cpp:47-52 | those items declare no field and change no global that shapes one |
| ReportDescriptor.DialBoundsAsWrittenMisread | lib/Esp32BleHapticDial/Esp32_BLE_HapticDial.cpp:24-52 | the radial controller collection as written parses, but not into well-formed items |
| ReportDescriptor.DialBoundsMisreadReport | lib/Esp32BleHapticDial/Esp32_BLE_HapticDial.cpp:24-52 | so read, input report 1 holds only the 1-bit button, fewer bits than the two bytes the dial sends |
| ReportDescriptor.Ordinal3BoundsAsWrittenParse | lib/Esp32BleHapticDial/Esp32_BLE_HapticDial.cpp:68-70 | ordinal 3's bounds as written walk to five items, each bound one byte with a stray 0x10 item after it |
| ReportDescriptor.Ordinal4BoundsAsWrittenParse | lib/Esp32BleHapticDial/Esp32_BLE_HapticDial.cpp:74-76 | ordinal 4's bounds as written walk to five items in the same way |
| ReportDescriptor.OrdinalBoundsMisread | lib/Esp32BleHapticDial/Esp32_BLE_HapticDial.cpp:68-76 | read as written, each ordinal's bounds yield two ill-formed items more than the corrected ones, with physical bounds 3 and 4 where 0x1003 and 0x1004 are written |
| ReportDescriptor.DialBoundsCorrection | lib/Esp32BleHapticDial/Esp32_BLE_HapticDial.cpp:47-52 | the dial's bounds as written are the corrected bytes with one change: PHYSICAL_MAXIMUM's prefix has size code 1 instead of 2 |
| ReportDescriptor.Ordinal3BoundsCorrection | lib/Esp32BleHapticDial/Esp32_BLE_HapticDial.cpp:68-70 | ordinal 3's bounds as written are the corrected bytes with the size codes of PHYSICAL_MINIMUM and PHYSICAL_MAXIMUM changed from 2 to 1 |
| ReportDescriptor.Ordinal4BoundsCorrection | lib/Esp32BleHapticDial/Esp32_BLE_HapticDial.cpp:74-76 | ordinal 4's bounds as written are the corrected bytes with the same two size codes changed |
| ReportDescriptor.CorrectedReportMapSegments | lib/Esp32BleHapticDial/Esp32_BLE_HapticDial.cpp:23-133 | the corrected map is its runs of items cut at the three patched bounds, in source order |
| ReportDescriptor.ReportMapAsWrittenDiffers | lib/Esp32BleHapticDial/Esp32_BLE_HapticDial.cpp:23-133 | the bytes the source writes have the same length as the corrected map and differ from it only at offsets 43 (cpp:48), 81, 84 (cpp:68-69), 95 and 98 (cpp:74-75). Each of those bytes is a physical bound's prefix, with size code 1 where the corrected map has 2 |

## Left out

- DialSpec.Begin: models only the reset and the wake-up timer that `begin` arms. The NimBLE calls of `begin` (cpp:198-244) are calls into a foreign stack: device initialisation, security, the server and HID service, the characteristics and extended advertising. A report sent is modelled only as a `Notify` entry in the ghost trace.
- DialSpec.SetBatteryLevel: models only the field assignment. The forwarding of the level to the HID service (cpp:262-263) is a foreign call.
- `esp_deep_sleep_start` and `esp_sleep_enable_timer_wakeup` are hardware power control. Only the decision to sleep and the timer value are modelled.
- `esp_timer_get_time` is a hardware clock. `DelayMs` therefore takes the sequence of readings it would return as a parameter, and in `DialSpec` the wait appears only as a `Debounce` entry in the trace.
- `printf` logging is not modelled.
- `rotate(int16_t)` is declared (hpp:54) but never defined, so the model has no rotate operation. The dial value is only ever set, to 0, by `reset`. There is therefore no rotation that accumulates and no range error for rotations.
- Haptic output reports are not decoded: a callback object is registered (cpp:220), but the code defines no write handler.
- The code does not resume advertising after a disconnect (cpp:285-288 only clears the flag), and it signals no errors for malformed local input. The model follows the code and has neither.
- Long items (HID 1.11 section 6.2.2.3) are rejected by the walker; the table uses none.
- The usage, usage page, physical, unit and unit-exponent items are walked and checked for well-formedness but not interpreted. Report fields carry kind, report ID, size, count and logical bounds only.
- HIDTypes.h, which defines the item macros, is not part of this model. Each macro's prefix is taken from the item encoding of HID 1.11 (tag·16 + type·4 + size code).
- NimBLE's host headers are not part of this model. BLE_HS_ETIMEOUT is given its NimBLE value 13.
- The battery level defaults to 255 in the constructor's declaration (hpp:47). The out-of-line definition (cpp:183) writes a second default of 100, which C++ does not accept beside the first. The model uses the declaration's 255.
- C integer types are bounded mathematical integers, not bit-vectors. Every conversion the code performs (uint16 to a 15-bit bit-field, uint16 to int16, the 32-bit product at cpp:246, the 64-bit sum at cpp:140) is written out modulo the type's range.
- Concurrency is not modelled: the transport's callbacks are taken to run one at a time on the caller's thread.

## Findings

| source | as written | input that shows it | evidently intended | confidence | as-written member | corrected member |
|---|---|---|---|---|---|---|
| lib/Esp32BleHapticDial/Esp32_BLE_HapticDial.cpp:48 | `PHYSICAL_MAXIMUM(1), 0x10, 0x0e`: the size code announces one data byte, but two follow | The radial controller collection's own bytes. A HID 1.11 short-item walk takes 0x0e as a prefix of the reserved type. It then swallows the logical bounds and the 15-bit Input item as data, so report 1 declares 1 bit instead of 16 | `PHYSICAL_MAXIMUM(2)` with the value 3600, as the line's comment and the matching minimum at cpp:47 say | not executed | ReportDescriptor.DialBoundsMisreadReport | ReportDescriptor.RadialControllerReport |
| lib/Esp32BleHapticDial/Esp32_BLE_HapticDial.cpp:68-69 | `PHYSICAL_MINIMUM(1)` and `PHYSICAL_MAXIMUM(1)` each followed by the two bytes of 0x1003. The same happens at cpp:74-75 for 0x1004 | Ordinal 3's and ordinal 4's bytes. Each bound reads as 3 or 4, and each stray 0x10 reads as a main item with reserved tag 1 | `PHYSICAL_MINIMUM(2)` and `PHYSICAL_MAXIMUM(2)` with the values 0x1003 and 0x1004 the comments give | not executed | ReportDescriptor.OrdinalBoundsMisread | ReportDescriptor.ReportMapParses |
