/**
 * The HID report descriptor `_HapticDialHIDReportDescriptor`
 * (Esp32_BLE_HapticDial.cpp) and a walker for the short items of
 * "Device Class Definition for HID 1.11", section 6.2.2.2, with an
 * interpreter of the global items of section 6.2.2.7 that yields the fields
 * of every Input, Output and Feature main item (section 6.2.2.4).
 *
 * The table is written in the source as a HIDTypes.h macro per item (which
 * yields the prefix byte) followed by the data bytes. It is modelled as a
 * list of such items, one per source line, grouped as the source's comments
 * group them; the bytes handed to the host are their concatenation.
 */
module ReportDescriptor {
  import opened CTypes
  import DialReport

  // ---------------------------------------------------------------------------
  // Short items, section 6.2.2.2: prefix = bTag (bits 7-4), bType (bits 3-2), bSize (bits 1-0)

  datatype ItemType = MainItem | GlobalItem | LocalItem | ReservedItem

  /** One item as the table writes it: the prefix byte and the data bytes that follow it. */
  datatype Item = Item(prefix: uint8, data: seq<uint8>)

  /** The number of data bytes the size code announces: 0, 1, 2 or 4. */
  function DataSize(prefix: uint8): nat
  {
    var code := prefix % 4;
    if code == 3 then 4 else code
  }

  function TypeOf(prefix: uint8): ItemType
  {
    var t := (prefix / 4) % 4;
    if t == 0 then MainItem else if t == 1 then GlobalItem else if t == 2 then LocalItem else ReservedItem
  }

  function TagOf(prefix: uint8): nat
  {
    prefix / 16
  }

  /** A prefix assembled from a tag, a type and a size code yields them back. */
  lemma PrefixDecomposes(prefix: uint8, tag: nat, kind: nat, code: nat)
    requires tag < 16 && kind < 4 && code < 4 && prefix == tag * 16 + kind * 4 + code
    ensures TagOf(prefix) == tag && (prefix / 4) % 4 == kind && prefix % 4 == code
  {
  }

  /** The prefix that opens a long item (section 6.2.2.3), which this walker does not accept. */
  const LongItemPrefix: uint8 := 0xFE

  /** A short item whose data are exactly as long as its size code announces. */
  predicate Framed(item: Item)
  {
    item.prefix != LongItemPrefix && |item.data| == DataSize(item.prefix)
  }

  // Main item tags (section 6.2.2.4)
  const InputTag: nat := 0x8
  const OutputTag: nat := 0x9
  const FeatureTag: nat := 0xB
  const CollectionTag: nat := 0xA
  const EndCollectionTag: nat := 0xC

  // Global item tags (section 6.2.2.7)
  const UsagePageTag: nat := 0x0
  const LogicalMinimumTag: nat := 0x1
  const LogicalMaximumTag: nat := 0x2
  const ReportSizeTag: nat := 0x7
  const ReportIdTag: nat := 0x8
  const ReportCountTag: nat := 0x9

  /**
   * An item whose type and tag the standard defines: main tags Input, Output,
   * Feature, Collection and End Collection; global tags 0 to 11; local tags
   * 0 to 10 except the reserved 6.
   */
  predicate Known(item: Item)
  {
    var tag := TagOf(item.prefix);
    match TypeOf(item.prefix)
    case MainItem => InputTag <= tag <= EndCollectionTag
    case GlobalItem => tag <= 0xB
    case LocalItem => tag <= 0xA && tag != 6
    case ReservedItem => false
  }

  predicate AllFramed(items: seq<Item>)
  {
    |items| == 0 || (Framed(items[0]) && AllFramed(items[1..]))
  }

  predicate WellFormed(item: Item)
  {
    Framed(item) && Known(item)
  }

  predicate AllWellFormed(items: seq<Item>)
  {
    forall i :: 0 <= i < |items| ==> WellFormed(items[i])
  }

  /** Well-formed items are framed, so they walk back out of their bytes. */
  lemma {:induction false} WellFormedFramed(items: seq<Item>)
    requires AllWellFormed(items)
    ensures AllFramed(items)
  {
    if |items| > 0 {
      assert WellFormed(items[0]);
      assert forall i :: 0 <= i < |items[1..]| ==> items[1..][i] == items[i + 1];
      WellFormedFramed(items[1..]);
    }
  }

  /** items[k..] are well formed; walked one index at a time. */
  predicate WellFormedFrom(items: seq<Item>, k: nat)
    decreases |items| - k
  {
    k >= |items| || (WellFormed(items[k]) && WellFormedFrom(items, k + 1))
  }

  lemma {:induction false} WellFormedFromAll(items: seq<Item>, k: nat)
    requires WellFormedFrom(items, k)
    ensures forall i :: k <= i < |items| ==> WellFormed(items[i])
    decreases |items| - k
  {
    if k < |items| {
      WellFormedFromAll(items, k + 1);
    }
  }

  lemma {:induction false} WellFormedFromShift(a: seq<Item>, b: seq<Item>, j: nat)
    requires j <= |b| && WellFormedFrom(b, j)
    ensures WellFormedFrom(a + b, |a| + j)
    decreases |b| - j
  {
    if j < |b| {
      assert (a + b)[|a| + j] == b[j];
      WellFormedFromShift(a, b, j + 1);
    }
  }

  /** Well-formed runs stay well formed when put one after the other. */
  lemma {:induction false} WellFormedFromAppend(a: seq<Item>, b: seq<Item>, k: nat)
    requires k <= |a| && WellFormedFrom(a, k) && WellFormedFrom(b, 0)
    ensures WellFormedFrom(a + b, k)
    decreases |a| - k
  {
    if k == |a| {
      WellFormedFromShift(a, b, 0);
    } else {
      assert (a + b)[k] == a[k];
      WellFormedFromAppend(a, b, k + 1);
    }
  }

  // ---------------------------------------------------------------------------
  // The macros of HIDTypes.h: each ORs its size argument into the item's prefix.

  function HidInput(size: nat): uint8 requires size < 4 { 0x80 + size }
  function HidOutput(size: nat): uint8 requires size < 4 { 0x90 + size }
  function Feature(size: nat): uint8 requires size < 4 { 0xB0 + size }
  function Collection(size: nat): uint8 requires size < 4 { 0xA0 + size }
  function EndCollection(size: nat): uint8 requires size < 4 { 0xC0 + size }
  function UsagePage(size: nat): uint8 requires size < 4 { 0x04 + size }
  function LogicalMinimum(size: nat): uint8 requires size < 4 { 0x14 + size }
  function LogicalMaximum(size: nat): uint8 requires size < 4 { 0x24 + size }
  function PhysicalMinimum(size: nat): uint8 requires size < 4 { 0x34 + size }
  function PhysicalMaximum(size: nat): uint8 requires size < 4 { 0x44 + size }
  function UnitExponent(size: nat): uint8 requires size < 4 { 0x54 + size }
  function Unit(size: nat): uint8 requires size < 4 { 0x64 + size }
  function ReportSize(size: nat): uint8 requires size < 4 { 0x74 + size }
  function ReportId(size: nat): uint8 requires size < 4 { 0x84 + size }
  function ReportCount(size: nat): uint8 requires size < 4 { 0x94 + size }
  function Usage(size: nat): uint8 requires size < 4 { 0x08 + size }

  // ---------------------------------------------------------------------------
  // Bytes and the walker

  /** The bytes of a list of items: each prefix followed by its data. */
  function Flatten(items: seq<Item>): seq<uint8>
  {
    if |items| == 0 then [] else [items[0].prefix] + items[0].data + Flatten(items[1..])
  }

  lemma {:induction false} FlattenAppend(a: seq<Item>, b: seq<Item>)
    ensures Flatten(a + b) == Flatten(a) + Flatten(b)
  {
    if |a| == 0 {
      assert a + b == b;
    } else {
      assert (a + b)[0] == a[0];
      assert (a + b)[1..] == a[1..] + b;
      FlattenAppend(a[1..], b);
    }
  }

  /** Flattening items that each carry n data bytes gives n + 1 bytes per item. */
  lemma {:induction false} FlattenUniformLength(items: seq<Item>, n: nat)
    requires forall i :: 0 <= i < |items| ==> |items[i].data| == n
    ensures |Flatten(items)| == |items| * (n + 1)
  {
    if |items| > 0 {
      FlattenUniformLength(items[1..], n);
    }
  }

  /**
   * Splits bytes into short items, each prefix taking as many data bytes as
   * its size code announces. Fails on a long item or on a last item cut short.
   * What it returns is framed and flattens back to the input.
   */
  function Parse(d: seq<uint8>): (r: Option<seq<Item>>)
    ensures r.Some? ==> Flatten(r.value) == d
    ensures r.Some? ==> AllFramed(r.value)
    decreases |d|
  {
    if |d| == 0 then Some([])
    else
      var n := DataSize(d[0]);
      if d[0] == LongItemPrefix || |d| < 1 + n then None
      else
        var rest := Parse(d[1 + n..]);
        if rest.None? then None
        else
          var item := Item(d[0], d[1..1 + n]);
          assert ([item] + rest.value)[1..] == rest.value;
          assert d == [d[0]] + d[1..1 + n] + d[1 + n..];
          Some([item] + rest.value)
  }

  /** One step of the walker over a framed item. */
  lemma ParseStep(item: Item, tail: seq<uint8>, d: seq<uint8>)
    requires Framed(item) && d == [item.prefix] + item.data + tail
    ensures Parse(tail).None? ==> Parse(d).None?
    ensures Parse(tail).Some? ==> Parse(d) == Some([item] + Parse(tail).value)
  {
    var n := DataSize(item.prefix);
    assert d[0] == item.prefix;
    assert d[1..1 + n] == item.data;
    assert d[1 + n..] == tail;
  }

  lemma FlattenCons(items: seq<Item>, rest: seq<uint8>)
    requires |items| > 0
    ensures Flatten(items) + rest == [items[0].prefix] + items[0].data + (Flatten(items[1..]) + rest)
  {
    var head, later := [items[0].prefix] + items[0].data, Flatten(items[1..]);
    assert Flatten(items) == head + later;
    assert (head + later) + rest == head + (later + rest);
  }

  lemma ConsAppend<T>(xs: seq<T>, ys: seq<T>)
    requires |xs| > 0
    ensures [xs[0]] + (xs[1..] + ys) == xs + ys
  {
    assert xs == [xs[0]] + xs[1..];
    assert ([xs[0]] + xs[1..]) + ys == [xs[0]] + (xs[1..] + ys);
  }

  /**
   * Walking the bytes of framed items followed by more bytes gives back
   * those items, then whatever the rest walks to.
   */
  lemma {:induction false} ParseFlattenThen(items: seq<Item>, rest: seq<uint8>)
    requires AllFramed(items)
    ensures Parse(rest).None? ==> Parse(Flatten(items) + rest).None?
    ensures Parse(rest).Some? ==> Parse(Flatten(items) + rest) == Some(items + Parse(rest).value)
  {
    if |items| == 0 {
      assert Flatten(items) + rest == rest;
      if Parse(rest).Some? {
        assert items + Parse(rest).value == Parse(rest).value;
      }
    } else {
      var item := items[0];
      var tail := Flatten(items[1..]) + rest;
      FlattenCons(items, rest);
      ParseFlattenThen(items[1..], rest);
      ParseStep(item, tail, Flatten(items) + rest);
      if Parse(rest).Some? {
        ConsAppend(items, Parse(rest).value);
      }
    }
  }

  /** Framed items survive the round trip through bytes. */
  lemma ParseFlatten(items: seq<Item>)
    requires AllFramed(items)
    ensures Parse(Flatten(items)) == Some(items)
  {
    ParseFlattenThen(items, []);
    assert Flatten(items) + [] == Flatten(items);
    assert items + [] == items;
  }

  // ---------------------------------------------------------------------------
  // Global state and the fields that main items declare (sections 6.2.2.4 and 6.2.2.7)

  datatype ReportKind = InputReport | OutputReport | FeatureReport

  /** The global items in effect; the ones that shape a field. */
  datatype Globals = Globals(reportId: nat, reportSize: nat, reportCount: nat, logicalMin: int, logicalMax: int)

  const NoGlobals: Globals := Globals(0, 0, 0, 0, 0)

  /** A data field: `count` values of `size` bits each, in the report with ID `reportId`. */
  datatype Field = Field(kind: ReportKind, reportId: nat, size: nat, count: nat, logicalMin: int, logicalMax: int)

  /** A global item replaces the value it names; Logical Minimum and Maximum are signed. */
  function Update(g: Globals, item: Item): Globals
  {
    if TypeOf(item.prefix) != GlobalItem then g
    else
      var tag := TagOf(item.prefix);
      if tag == LogicalMinimumTag then g.(logicalMin := SignedLE(item.data))
      else if tag == LogicalMaximumTag then g.(logicalMax := SignedLE(item.data))
      else if tag == ReportSizeTag then g.(reportSize := UnsignedLE(item.data))
      else if tag == ReportIdTag then g.(reportId := UnsignedLE(item.data))
      else if tag == ReportCountTag then g.(reportCount := UnsignedLE(item.data))
      else g
  }

  /** The field an Input, Output or Feature item declares under the globals in effect. */
  function FieldOf(g: Globals, item: Item): seq<Field>
  {
    var tag := TagOf(item.prefix);
    if TypeOf(item.prefix) != MainItem then []
    else if tag == InputTag then [Field(InputReport, g.reportId, g.reportSize, g.reportCount, g.logicalMin, g.logicalMax)]
    else if tag == OutputTag then [Field(OutputReport, g.reportId, g.reportSize, g.reportCount, g.logicalMin, g.logicalMax)]
    else if tag == FeatureTag then [Field(FeatureReport, g.reportId, g.reportSize, g.reportCount, g.logicalMin, g.logicalMax)]
    else []
  }

  /** The fields items[k..] declare, in order, when globals `g` are in effect before items[k]. */
  function FieldsFrom(items: seq<Item>, k: nat, g: Globals): seq<Field>
    decreases |items| - k
  {
    if k >= |items| then [] else FieldOf(g, items[k]) + FieldsFrom(items, k + 1, Update(g, items[k]))
  }

  /** The globals in effect after items[k..], when `g` are in effect before items[k]. */
  function GlobalsFrom(items: seq<Item>, k: nat, g: Globals): Globals
    decreases |items| - k
  {
    if k >= |items| then g else GlobalsFrom(items, k + 1, Update(g, items[k]))
  }

  /** The fields the items declare, in order, starting from globals `g`. */
  function Fields(items: seq<Item>, g: Globals): seq<Field>
  {
    FieldsFrom(items, 0, g)
  }

  /** The globals in effect after the items. */
  function GlobalsAfter(items: seq<Item>, g: Globals): Globals
  {
    GlobalsFrom(items, 0, g)
  }

  /** Walking b after a is walking b from the position a ends at. */
  lemma {:induction false} FieldsFromShift(a: seq<Item>, b: seq<Item>, j: nat, g: Globals)
    requires j <= |b|
    ensures FieldsFrom(a + b, |a| + j, g) == FieldsFrom(b, j, g)
    ensures GlobalsFrom(a + b, |a| + j, g) == GlobalsFrom(b, j, g)
    decreases |b| - j
  {
    if j < |b| {
      assert (a + b)[|a| + j] == b[j];
      FieldsFromShift(a, b, j + 1, Update(g, b[j]));
    }
  }

  lemma {:induction false} FieldsFromAppend(a: seq<Item>, b: seq<Item>, k: nat, g: Globals)
    requires k <= |a|
    ensures FieldsFrom(a + b, k, g) == FieldsFrom(a, k, g) + FieldsFrom(b, 0, GlobalsFrom(a, k, g))
    ensures GlobalsFrom(a + b, k, g) == GlobalsFrom(b, 0, GlobalsFrom(a, k, g))
    decreases |a| - k
  {
    if k == |a| {
      FieldsFromShift(a, b, 0, g);
    } else {
      var item, next := a[k], Update(g, a[k]);
      assert (a + b)[k] == item;
      FieldsFromAppend(a, b, k + 1, next);
      var here, later, after := FieldOf(g, item), FieldsFrom(a, k + 1, next), FieldsFrom(b, 0, GlobalsFrom(a, k + 1, next));
      calc {
        FieldsFrom(a + b, k, g);
        here + FieldsFrom(a + b, k + 1, next);
        here + (later + after);
        { assert here + (later + after) == (here + later) + after; }
        (here + later) + after;
        FieldsFrom(a, k, g) + FieldsFrom(b, 0, GlobalsFrom(a, k, g));
      }
    }
  }

  lemma FieldsAppend(a: seq<Item>, b: seq<Item>, g: Globals)
    ensures Fields(a + b, g) == Fields(a, g) + Fields(b, GlobalsAfter(a, g))
    ensures GlobalsAfter(a + b, g) == GlobalsAfter(b, GlobalsAfter(a, g))
  {
    FieldsFromAppend(a, b, 0, g);
  }

  /** The fields of `fields[k..]` that are of one kind and belong to one report, in order. */
  function SelectFrom(fields: seq<Field>, k: nat, kind: ReportKind, id: nat): seq<Field>
    decreases |fields| - k
  {
    if k >= |fields| then []
    else (if fields[k].kind == kind && fields[k].reportId == id then [fields[k]] else []) + SelectFrom(fields, k + 1, kind, id)
  }

  /** The fields of one kind in one report. */
  function Select(fields: seq<Field>, kind: ReportKind, id: nat): seq<Field>
  {
    SelectFrom(fields, 0, kind, id)
  }

  lemma {:induction false} SelectFromShift(a: seq<Field>, b: seq<Field>, j: nat, kind: ReportKind, id: nat)
    requires j <= |b|
    ensures SelectFrom(a + b, |a| + j, kind, id) == SelectFrom(b, j, kind, id)
    decreases |b| - j
  {
    if j < |b| {
      var ab := a + b;
      assert ab[|a| + j] == b[j];
      SelectFromShift(a, b, j + 1, kind, id);
    }
  }

  lemma {:induction false} SelectFromAppend(a: seq<Field>, b: seq<Field>, k: nat, kind: ReportKind, id: nat)
    requires k <= |a|
    ensures SelectFrom(a + b, k, kind, id) == SelectFrom(a, k, kind, id) + SelectFrom(b, 0, kind, id)
    decreases |a| - k
  {
    if k == |a| {
      SelectFromShift(a, b, 0, kind, id);
    } else {
      assert (a + b)[k] == a[k];
      SelectFromAppend(a, b, k + 1, kind, id);
      var here := if a[k].kind == kind && a[k].reportId == id then [a[k]] else [];
      var later, after := SelectFrom(a, k + 1, kind, id), SelectFrom(b, 0, kind, id);
      calc {
        SelectFrom(a + b, k, kind, id);
        here + SelectFrom(a + b, k + 1, kind, id);
        here + (later + after);
        { assert here + (later + after) == (here + later) + after; }
        (here + later) + after;
      }
    }
  }

  lemma SelectAppend(a: seq<Field>, b: seq<Field>, kind: ReportKind, id: nat)
    ensures Select(a + b, kind, id) == Select(a, kind, id) + Select(b, kind, id)
  {
    SelectFromAppend(a, b, 0, kind, id);
  }

  /** The number of bits `fields[k..]` occupy in a report. */
  function BitsFrom(fields: seq<Field>, k: nat): nat
    decreases |fields| - k
  {
    if k >= |fields| then 0 else fields[k].size * fields[k].count + BitsFrom(fields, k + 1)
  }

  /** The number of bits the fields occupy in a report. */
  function Bits(fields: seq<Field>): nat
  {
    BitsFrom(fields, 0)
  }

  lemma {:induction false} BitsFromShift(a: seq<Field>, b: seq<Field>, j: nat)
    requires j <= |b|
    ensures BitsFrom(a + b, |a| + j) == BitsFrom(b, j)
    decreases |b| - j
  {
    if j < |b| {
      assert (a + b)[|a| + j] == b[j];
      BitsFromShift(a, b, j + 1);
    }
  }

  lemma {:induction false} BitsFromAppend(a: seq<Field>, b: seq<Field>, k: nat)
    requires k <= |a|
    ensures BitsFrom(a + b, k) == BitsFrom(a, k) + BitsFrom(b, 0)
    decreases |a| - k
  {
    if k == |a| {
      BitsFromShift(a, b, 0);
    } else {
      assert (a + b)[k] == a[k];
      BitsFromAppend(a, b, k + 1);
      assert BitsFrom(a + b, k) == a[k].size * a[k].count + BitsFrom(a + b, k + 1);
    }
  }

  /** The bit count of a concatenation of fields is the sum of the parts'. */
  lemma BitsAppend(a: seq<Field>, b: seq<Field>)
    ensures Bits(a + b) == Bits(a) + Bits(b)
  {
    BitsFromAppend(a, b, 0);
  }

  /** One item's effect, with the item, the globals and the fields it yields given explicitly. */
  lemma ItemStep(s: seq<Item>, k: nat, item: Item, g: Globals, next: Globals, f: seq<Field>)
    requires k < |s| && s[k] == item
    requires Update(g, item) == next && FieldOf(g, item) == f
    ensures FieldsFrom(s, k, g) == f + FieldsFrom(s, k + 1, next)
    ensures GlobalsFrom(s, k, g) == GlobalsFrom(s, k + 1, next)
  {
  }

  // ---------------------------------------------------------------------------
  // The report map, one item per source line, grouped as the source's comments group it

  const RadialControllerReportId: nat := 0x01
  const HapticFeedbackReportId: nat := 0x02

  /** System Multi-Axis Controller application collection (cpp:24-26). */
  const ApplicationCollection: seq<Item> := [
    Item(UsagePage(1), [0x01]),
    Item(Usage(1), [0x0e]),
    Item(Collection(1), [0x01])]

  /** Radial controller: report ID 1, Digitizers Puck, physical collection (cpp:28-31). */
  const RadialController: seq<Item> := [
    Item(ReportId(1), [RadialControllerReportId]),
    Item(UsagePage(1), [0x0d]),
    Item(Usage(1), [0x21]),
    Item(Collection(1), [0x00])]

  /** Press button: one 1-bit absolute input, 0 to 1 (cpp:33-39). */
  const PressButton: seq<Item> := [
    Item(UsagePage(1), [0x09]),
    Item(Usage(1), [0x01]),
    Item(ReportCount(1), [0x01]),
    Item(ReportSize(1), [0x01]),
    Item(LogicalMinimum(1), [0x00]),
    Item(LogicalMaximum(1), [0x01]),
    Item(HidInput(1), [0x02])]

  /** Rotating dial: Generic Desktop Dial, one 15-bit value in tenths of a degree (cpp:41-46). */
  const DialUsage: seq<Item> := [
    Item(UsagePage(1), [0x01]),
    Item(Usage(1), [0x37]),
    Item(ReportCount(1), [0x01]),
    Item(ReportSize(1), [0x0f]),
    Item(UnitExponent(1), [0x0f]),
    Item(Unit(1), [0x14])]

  /** Rotating dial: bounds -3600 to 3600, the relative input, and the end of the physical collection (cpp:47-52). */
  const DialBounds: seq<Item> := [
    Item(PhysicalMinimum(2), [0xf0, 0xf1]),
    Item(PhysicalMaximum(2), [0x10, 0x0e]),
    Item(LogicalMinimum(2), [0xf0, 0xf1]),
    Item(LogicalMaximum(2), [0x10, 0x0e]),
    Item(HidInput(1), [0x06]),
    Item(EndCollection(0), [])]

  /** Haptic feedback: report ID 2, Simple Haptic Controller, logical collection (cpp:54-57). */
  const HapticFeedback: seq<Item> := [
    Item(ReportId(1), [HapticFeedbackReportId]),
    Item(UsagePage(1), [0x0e]),
    Item(Usage(1), [0x01]),
    Item(Collection(1), [0x02])]

  /** Waveform list: Haptics Waveform List, logical collection (cpp:59-61). */
  const WaveformList: seq<Item> := [
    Item(UsagePage(1), [0x0e]),
    Item(Usage(1), [0x10]),
    Item(Collection(1), [0x02])]

  /** Waveform list, ordinal 3: a constant 8-bit feature 3, physical 0x1003 (cpp:62-70). */
  const Ordinal3: seq<Item> := [
    Item(UsagePage(1), [0x0a]),
    Item(Usage(1), [0x03]),
    Item(ReportCount(1), [0x01]),
    Item(ReportSize(1), [0x08]),
    Item(LogicalMinimum(1), [0x03]),
    Item(LogicalMaximum(1), [0x03]),
    Item(PhysicalMinimum(2), [0x03, 0x10]),
    Item(PhysicalMaximum(2), [0x03, 0x10]),
    Item(Feature(1), [0x03])]

  /** Waveform list, ordinal 4: a constant 8-bit feature 4, physical 0x1004, and the end of the list (cpp:71-77). */
  const Ordinal4: seq<Item> := [
    Item(Usage(1), [0x04]),
    Item(LogicalMinimum(1), [0x04]),
    Item(LogicalMaximum(1), [0x04]),
    Item(PhysicalMinimum(2), [0x04, 0x10]),
    Item(PhysicalMaximum(2), [0x04, 0x10]),
    Item(Feature(1), [0x03]),
    Item(EndCollection(0), [])]

  /** Duration list: two 8-bit features, 0 to 4095 (cpp:79-90). */
  const DurationList: seq<Item> := [
    Item(UsagePage(1), [0x0e]),
    Item(Usage(1), [0x11]),
    Item(Collection(1), [0x02]),
    Item(UsagePage(1), [0x0a]),
    Item(Usage(1), [0x03]),
    Item(Usage(1), [0x04]),
    Item(LogicalMinimum(1), [0x00]),
    Item(LogicalMaximum(2), [0xff, 0x0f]),
    Item(ReportCount(1), [0x02]),
    Item(ReportSize(1), [0x08]),
    Item(Feature(1), [0x02]),
    Item(EndCollection(0), [])]

  /** Auto trigger: one 16-bit feature, 0x1000 to 0x1004 (cpp:92-97). */
  const AutoTrigger: seq<Item> := [
    Item(Usage(1), [0x20]),
    Item(LogicalMinimum(2), [0x00, 0x10]),
    Item(LogicalMaximum(2), [0x04, 0x10]),
    Item(ReportCount(1), [0x01]),
    Item(ReportSize(1), [0x10]),
    Item(Feature(1), [0x02])]

  /** Auto trigger associated control: a constant 32-bit feature 0x00010037 (cpp:99-104). */
  const AssociatedControl: seq<Item> := [
    Item(Usage(1), [0x22]),
    Item(LogicalMinimum(3), [0x37, 0x00, 0x01, 0x00]),
    Item(LogicalMaximum(3), [0x37, 0x00, 0x01, 0x00]),
    Item(ReportCount(1), [0x01]),
    Item(ReportSize(1), [0x20]),
    Item(Feature(1), [0x03])]

  /** Intensity: an 8-bit output and feature, 0 to 127 (cpp:106-112). */
  const Intensity: seq<Item> := [
    Item(Usage(1), [0x23]),
    Item(LogicalMinimum(1), [0x00]),
    Item(LogicalMaximum(1), [0x7f]),
    Item(ReportSize(1), [0x08]),
    Item(HidOutput(1), [0x02]),
    Item(Usage(1), [0x23]),
    Item(Feature(1), [0x02])]

  /** Repeat count: an 8-bit output and feature (cpp:114-117). */
  const RepeatCount: seq<Item> := [
    Item(Usage(1), [0x24]),
    Item(HidOutput(1), [0x02]),
    Item(Usage(1), [0x24]),
    Item(Feature(1), [0x02])]

  /** Retrigger period: an 8-bit output and feature (cpp:119-122). */
  const RetriggerPeriod: seq<Item> := [
    Item(Usage(1), [0x25]),
    Item(HidOutput(1), [0x02]),
    Item(Usage(1), [0x25]),
    Item(Feature(1), [0x02])]

  /** Waveform cutoff time: a 16-bit feature, up to 32767 (cpp:124-127). */
  const WaveformCutoffTime: seq<Item> := [
    Item(Usage(1), [0x28]),
    Item(LogicalMaximum(2), [0xff, 0x7f]),
    Item(ReportSize(1), [0x10]),
    Item(Feature(1), [0x02])]

  /** Manual trigger: a 16-bit output, and the ends of the two open collections (cpp:129-132). */
  const ManualTrigger: seq<Item> := [
    Item(Usage(1), [0x21]),
    Item(HidOutput(1), [0x02]),
    Item(EndCollection(0), []),
    Item(EndCollection(0), [])]

  /** The radial controller collection up to the rotation's bounds (cpp:24-46). */
  const DialHeader: seq<Item> := ApplicationCollection + RadialController + PressButton + DialUsage

  /** The radial controller collection (cpp:24-52). */
  const RadialControllerRegion: seq<Item> := DialHeader + DialBounds

  /** The haptic feedback collection's header and waveform list (cpp:54-77). */
  const HapticWaveforms: seq<Item> := HapticFeedback + WaveformList + Ordinal3 + Ordinal4

  /** The haptic feedback collection's header, waveform list and duration list (cpp:54-90). */
  const HapticLists: seq<Item> := HapticWaveforms + DurationList

  /** Auto trigger, its associated control, and intensity (cpp:92-112). */
  const TriggerControls: seq<Item> := AutoTrigger + AssociatedControl + Intensity

  /** Repeat count, retrigger period, cutoff time, manual trigger, and the closing items (cpp:114-132). */
  const PlaybackControls: seq<Item> := RepeatCount + RetriggerPeriod + WaveformCutoffTime + ManualTrigger

  /** The haptic feedback collection and the end of the application collection (cpp:54-132). */
  const HapticFeedbackRegion: seq<Item> := HapticLists + TriggerControls + PlaybackControls

  /** The report map as items (cpp:23-133), with the corrections listed under findings. */
  const Descriptor: seq<Item> := RadialControllerRegion + HapticFeedbackRegion

  /**
   * The bytes of the report map with the five corrected size codes (at three
   * places of the table); the bytes the source writes are ReportMapAsWritten,
   * further down.
   */
  const CorrectedReportMap: seq<uint8> := Flatten(Descriptor)

  /** What each item of cpp:24-26 does to the globals in effect, and the field it declares. */
  lemma ApplicationCollectionItems()
    ensures Update(NoGlobals, Item(UsagePage(1), [0x01])) == NoGlobals && FieldOf(NoGlobals, Item(UsagePage(1), [0x01])) == []
    ensures Update(NoGlobals, Item(Usage(1), [0x0e])) == NoGlobals && FieldOf(NoGlobals, Item(Usage(1), [0x0e])) == []
    ensures Update(NoGlobals, Item(Collection(1), [0x01])) == NoGlobals && FieldOf(NoGlobals, Item(Collection(1), [0x01])) == []
  {
    PrefixDecomposes(UsagePage(1), 0, 1, 1);
    PrefixDecomposes(Usage(1), 0, 2, 1);
    PrefixDecomposes(Collection(1), 10, 0, 1);
  }

  /** Every item of cpp:24-26 is a framed short item of a type and tag the standard defines. */
  lemma ApplicationCollectionWellFormed()
    ensures WellFormedFrom(ApplicationCollection, 0)
  {
    PrefixDecomposes(UsagePage(1), 0, 1, 1);
    PrefixDecomposes(Usage(1), 0, 2, 1);
    PrefixDecomposes(Collection(1), 10, 0, 1);
    assert WellFormedFrom(ApplicationCollection, 2);
    assert WellFormedFrom(ApplicationCollection, 1);
    assert WellFormedFrom(ApplicationCollection, 0);
  }

  /** The fields cpp:24-26 declares, and the globals in effect after it. */
  lemma ApplicationCollectionLayout()
    ensures Fields(ApplicationCollection, NoGlobals) == []
    ensures GlobalsAfter(ApplicationCollection, NoGlobals) == NoGlobals
  {
    ApplicationCollectionItems();
    ItemStep(ApplicationCollection, 2, Item(Collection(1), [0x01]),
      NoGlobals, NoGlobals, []);
    ItemStep(ApplicationCollection, 1, Item(Usage(1), [0x0e]),
      NoGlobals, NoGlobals, []);
    ItemStep(ApplicationCollection, 0, Item(UsagePage(1), [0x01]),
      NoGlobals, NoGlobals, []);
  }

  /** What each item of cpp:28-31 does to the globals in effect, and the field it declares. */
  lemma RadialControllerItems()
    ensures Update(NoGlobals, Item(ReportId(1), [RadialControllerReportId])) == Globals(1, 0, 0, 0, 0) && FieldOf(NoGlobals, Item(ReportId(1), [RadialControllerReportId])) == []
    ensures Update(Globals(1, 0, 0, 0, 0), Item(UsagePage(1), [0x0d])) == Globals(1, 0, 0, 0, 0) && FieldOf(Globals(1, 0, 0, 0, 0), Item(UsagePage(1), [0x0d])) == []
    ensures Update(Globals(1, 0, 0, 0, 0), Item(Usage(1), [0x21])) == Globals(1, 0, 0, 0, 0) && FieldOf(Globals(1, 0, 0, 0, 0), Item(Usage(1), [0x21])) == []
    ensures Update(Globals(1, 0, 0, 0, 0), Item(Collection(1), [0x00])) == Globals(1, 0, 0, 0, 0) && FieldOf(Globals(1, 0, 0, 0, 0), Item(Collection(1), [0x00])) == []
  {
    PrefixDecomposes(ReportId(1), 8, 1, 1);
    PrefixDecomposes(UsagePage(1), 0, 1, 1);
    PrefixDecomposes(Usage(1), 0, 2, 1);
    PrefixDecomposes(Collection(1), 10, 0, 1);
  }

  /** Every item of cpp:28-31 is a framed short item of a type and tag the standard defines. */
  lemma RadialControllerWellFormed()
    ensures WellFormedFrom(RadialController, 0)
  {
    PrefixDecomposes(ReportId(1), 8, 1, 1);
    PrefixDecomposes(UsagePage(1), 0, 1, 1);
    PrefixDecomposes(Usage(1), 0, 2, 1);
    PrefixDecomposes(Collection(1), 10, 0, 1);
    assert WellFormedFrom(RadialController, 3);
    assert WellFormedFrom(RadialController, 2);
    assert WellFormedFrom(RadialController, 1);
    assert WellFormedFrom(RadialController, 0);
  }

  /** The fields cpp:28-31 declares, and the globals in effect after it. */
  lemma RadialControllerLayout()
    ensures Fields(RadialController, NoGlobals) == []
    ensures GlobalsAfter(RadialController, NoGlobals) == Globals(1, 0, 0, 0, 0)
  {
    RadialControllerItems();
    ItemStep(RadialController, 3, Item(Collection(1), [0x00]),
      Globals(1, 0, 0, 0, 0), Globals(1, 0, 0, 0, 0), []);
    ItemStep(RadialController, 2, Item(Usage(1), [0x21]),
      Globals(1, 0, 0, 0, 0), Globals(1, 0, 0, 0, 0), []);
    ItemStep(RadialController, 1, Item(UsagePage(1), [0x0d]),
      Globals(1, 0, 0, 0, 0), Globals(1, 0, 0, 0, 0), []);
    ItemStep(RadialController, 0, Item(ReportId(1), [RadialControllerReportId]),
      NoGlobals, Globals(1, 0, 0, 0, 0), []);
  }

  /** What each item of cpp:33-39 does to the globals in effect, and the field it declares. */
  lemma PressButtonItems()
    ensures Update(Globals(1, 0, 0, 0, 0), Item(UsagePage(1), [0x09])) == Globals(1, 0, 0, 0, 0) && FieldOf(Globals(1, 0, 0, 0, 0), Item(UsagePage(1), [0x09])) == []
    ensures Update(Globals(1, 0, 0, 0, 0), Item(Usage(1), [0x01])) == Globals(1, 0, 0, 0, 0) && FieldOf(Globals(1, 0, 0, 0, 0), Item(Usage(1), [0x01])) == []
    ensures Update(Globals(1, 0, 0, 0, 0), Item(ReportCount(1), [0x01])) == Globals(1, 0, 1, 0, 0) && FieldOf(Globals(1, 0, 0, 0, 0), Item(ReportCount(1), [0x01])) == []
    ensures Update(Globals(1, 0, 1, 0, 0), Item(ReportSize(1), [0x01])) == Globals(1, 1, 1, 0, 0) && FieldOf(Globals(1, 0, 1, 0, 0), Item(ReportSize(1), [0x01])) == []
    ensures Update(Globals(1, 1, 1, 0, 0), Item(LogicalMinimum(1), [0x00])) == Globals(1, 1, 1, 0, 0) && FieldOf(Globals(1, 1, 1, 0, 0), Item(LogicalMinimum(1), [0x00])) == []
    ensures Update(Globals(1, 1, 1, 0, 0), Item(LogicalMaximum(1), [0x01])) == Globals(1, 1, 1, 0, 1) && FieldOf(Globals(1, 1, 1, 0, 0), Item(LogicalMaximum(1), [0x01])) == []
    ensures Update(Globals(1, 1, 1, 0, 1), Item(HidInput(1), [0x02])) == Globals(1, 1, 1, 0, 1) && FieldOf(Globals(1, 1, 1, 0, 1), Item(HidInput(1), [0x02])) == [Field(InputReport, 1, 1, 1, 0, 1)]
  {
    PrefixDecomposes(UsagePage(1), 0, 1, 1);
    PrefixDecomposes(Usage(1), 0, 2, 1);
    PrefixDecomposes(ReportCount(1), 9, 1, 1);
    PrefixDecomposes(ReportSize(1), 7, 1, 1);
    PrefixDecomposes(LogicalMinimum(1), 1, 1, 1);
    PrefixDecomposes(LogicalMaximum(1), 2, 1, 1);
    PrefixDecomposes(HidInput(1), 8, 0, 1);
  }

  /** Every item of cpp:33-39 is a framed short item of a type and tag the standard defines. */
  lemma PressButtonWellFormed()
    ensures WellFormedFrom(PressButton, 0)
  {
    PrefixDecomposes(UsagePage(1), 0, 1, 1);
    PrefixDecomposes(Usage(1), 0, 2, 1);
    PrefixDecomposes(ReportCount(1), 9, 1, 1);
    PrefixDecomposes(ReportSize(1), 7, 1, 1);
    PrefixDecomposes(LogicalMinimum(1), 1, 1, 1);
    PrefixDecomposes(LogicalMaximum(1), 2, 1, 1);
    PrefixDecomposes(HidInput(1), 8, 0, 1);
    assert WellFormedFrom(PressButton, 6);
    assert WellFormedFrom(PressButton, 5);
    assert WellFormedFrom(PressButton, 4);
    assert WellFormedFrom(PressButton, 3);
    assert WellFormedFrom(PressButton, 2);
    assert WellFormedFrom(PressButton, 1);
    assert WellFormedFrom(PressButton, 0);
  }

  /** The fields cpp:33-39 declares, and the globals in effect after it. */
  lemma PressButtonLayout()
    ensures Fields(PressButton, Globals(1, 0, 0, 0, 0)) == [Field(InputReport, 1, 1, 1, 0, 1)]
    ensures GlobalsAfter(PressButton, Globals(1, 0, 0, 0, 0)) == Globals(1, 1, 1, 0, 1)
  {
    PressButtonItems();
    ItemStep(PressButton, 6, Item(HidInput(1), [0x02]),
      Globals(1, 1, 1, 0, 1), Globals(1, 1, 1, 0, 1), [Field(InputReport, 1, 1, 1, 0, 1)]);
    ItemStep(PressButton, 5, Item(LogicalMaximum(1), [0x01]),
      Globals(1, 1, 1, 0, 0), Globals(1, 1, 1, 0, 1), []);
    ItemStep(PressButton, 4, Item(LogicalMinimum(1), [0x00]),
      Globals(1, 1, 1, 0, 0), Globals(1, 1, 1, 0, 0), []);
    ItemStep(PressButton, 3, Item(ReportSize(1), [0x01]),
      Globals(1, 0, 1, 0, 0), Globals(1, 1, 1, 0, 0), []);
    ItemStep(PressButton, 2, Item(ReportCount(1), [0x01]),
      Globals(1, 0, 0, 0, 0), Globals(1, 0, 1, 0, 0), []);
    ItemStep(PressButton, 1, Item(Usage(1), [0x01]),
      Globals(1, 0, 0, 0, 0), Globals(1, 0, 0, 0, 0), []);
    ItemStep(PressButton, 0, Item(UsagePage(1), [0x09]),
      Globals(1, 0, 0, 0, 0), Globals(1, 0, 0, 0, 0), []);
  }

  /** What each item of cpp:41-46 does to the globals in effect, and the field it declares. */
  lemma DialUsageItems()
    ensures Update(Globals(1, 1, 1, 0, 1), Item(UsagePage(1), [0x01])) == Globals(1, 1, 1, 0, 1) && FieldOf(Globals(1, 1, 1, 0, 1), Item(UsagePage(1), [0x01])) == []
    ensures Update(Globals(1, 1, 1, 0, 1), Item(Usage(1), [0x37])) == Globals(1, 1, 1, 0, 1) && FieldOf(Globals(1, 1, 1, 0, 1), Item(Usage(1), [0x37])) == []
    ensures Update(Globals(1, 1, 1, 0, 1), Item(ReportCount(1), [0x01])) == Globals(1, 1, 1, 0, 1) && FieldOf(Globals(1, 1, 1, 0, 1), Item(ReportCount(1), [0x01])) == []
    ensures Update(Globals(1, 1, 1, 0, 1), Item(ReportSize(1), [0x0f])) == Globals(1, 15, 1, 0, 1) && FieldOf(Globals(1, 1, 1, 0, 1), Item(ReportSize(1), [0x0f])) == []
    ensures Update(Globals(1, 15, 1, 0, 1), Item(UnitExponent(1), [0x0f])) == Globals(1, 15, 1, 0, 1) && FieldOf(Globals(1, 15, 1, 0, 1), Item(UnitExponent(1), [0x0f])) == []
    ensures Update(Globals(1, 15, 1, 0, 1), Item(Unit(1), [0x14])) == Globals(1, 15, 1, 0, 1) && FieldOf(Globals(1, 15, 1, 0, 1), Item(Unit(1), [0x14])) == []
  {
    PrefixDecomposes(UsagePage(1), 0, 1, 1);
    PrefixDecomposes(Usage(1), 0, 2, 1);
    PrefixDecomposes(ReportCount(1), 9, 1, 1);
    PrefixDecomposes(ReportSize(1), 7, 1, 1);
    PrefixDecomposes(UnitExponent(1), 5, 1, 1);
    PrefixDecomposes(Unit(1), 6, 1, 1);
  }

  /** Every item of cpp:41-46 is a framed short item of a type and tag the standard defines. */
  lemma DialUsageWellFormed()
    ensures WellFormedFrom(DialUsage, 0)
  {
    PrefixDecomposes(UsagePage(1), 0, 1, 1);
    PrefixDecomposes(Usage(1), 0, 2, 1);
    PrefixDecomposes(ReportCount(1), 9, 1, 1);
    PrefixDecomposes(ReportSize(1), 7, 1, 1);
    PrefixDecomposes(UnitExponent(1), 5, 1, 1);
    PrefixDecomposes(Unit(1), 6, 1, 1);
    assert WellFormedFrom(DialUsage, 5);
    assert WellFormedFrom(DialUsage, 4);
    assert WellFormedFrom(DialUsage, 3);
    assert WellFormedFrom(DialUsage, 2);
    assert WellFormedFrom(DialUsage, 1);
    assert WellFormedFrom(DialUsage, 0);
  }

  /** The fields cpp:41-46 declares, and the globals in effect after it. */
  lemma DialUsageLayout()
    ensures Fields(DialUsage, Globals(1, 1, 1, 0, 1)) == []
    ensures GlobalsAfter(DialUsage, Globals(1, 1, 1, 0, 1)) == Globals(1, 15, 1, 0, 1)
  {
    DialUsageItems();
    ItemStep(DialUsage, 5, Item(Unit(1), [0x14]),
      Globals(1, 15, 1, 0, 1), Globals(1, 15, 1, 0, 1), []);
    ItemStep(DialUsage, 4, Item(UnitExponent(1), [0x0f]),
      Globals(1, 15, 1, 0, 1), Globals(1, 15, 1, 0, 1), []);
    ItemStep(DialUsage, 3, Item(ReportSize(1), [0x0f]),
      Globals(1, 1, 1, 0, 1), Globals(1, 15, 1, 0, 1), []);
    ItemStep(DialUsage, 2, Item(ReportCount(1), [0x01]),
      Globals(1, 1, 1, 0, 1), Globals(1, 1, 1, 0, 1), []);
    ItemStep(DialUsage, 1, Item(Usage(1), [0x37]),
      Globals(1, 1, 1, 0, 1), Globals(1, 1, 1, 0, 1), []);
    ItemStep(DialUsage, 0, Item(UsagePage(1), [0x01]),
      Globals(1, 1, 1, 0, 1), Globals(1, 1, 1, 0, 1), []);
  }

  /** What each item of cpp:47-52 does to the globals in effect, and the field it declares. */
  lemma DialBoundsItems()
    ensures Update(Globals(1, 15, 1, 0, 1), Item(PhysicalMinimum(2), [0xf0, 0xf1])) == Globals(1, 15, 1, 0, 1) && FieldOf(Globals(1, 15, 1, 0, 1), Item(PhysicalMinimum(2), [0xf0, 0xf1])) == []
    ensures Update(Globals(1, 15, 1, 0, 1), Item(PhysicalMaximum(2), [0x10, 0x0e])) == Globals(1, 15, 1, 0, 1) && FieldOf(Globals(1, 15, 1, 0, 1), Item(PhysicalMaximum(2), [0x10, 0x0e])) == []
    ensures Update(Globals(1, 15, 1, 0, 1), Item(LogicalMinimum(2), [0xf0, 0xf1])) == Globals(1, 15, 1, -3600, 1) && FieldOf(Globals(1, 15, 1, 0, 1), Item(LogicalMinimum(2), [0xf0, 0xf1])) == []
    ensures Update(Globals(1, 15, 1, -3600, 1), Item(LogicalMaximum(2), [0x10, 0x0e])) == Globals(1, 15, 1, -3600, 3600) && FieldOf(Globals(1, 15, 1, -3600, 1), Item(LogicalMaximum(2), [0x10, 0x0e])) == []
    ensures Update(Globals(1, 15, 1, -3600, 3600), Item(HidInput(1), [0x06])) == Globals(1, 15, 1, -3600, 3600) && FieldOf(Globals(1, 15, 1, -3600, 3600), Item(HidInput(1), [0x06])) == [Field(InputReport, 1, 15, 1, -3600, 3600)]
    ensures Update(Globals(1, 15, 1, -3600, 3600), Item(EndCollection(0), [])) == Globals(1, 15, 1, -3600, 3600) && FieldOf(Globals(1, 15, 1, -3600, 3600), Item(EndCollection(0), [])) == []
  {
    PrefixDecomposes(PhysicalMinimum(2), 3, 1, 2);
    PrefixDecomposes(PhysicalMaximum(2), 4, 1, 2);
    PrefixDecomposes(LogicalMinimum(2), 1, 1, 2);
    PrefixDecomposes(LogicalMaximum(2), 2, 1, 2);
    PrefixDecomposes(HidInput(1), 8, 0, 1);
    PrefixDecomposes(EndCollection(0), 12, 0, 0);
  }

  /** Every item of cpp:47-52 is a framed short item of a type and tag the standard defines. */
  lemma DialBoundsWellFormed()
    ensures WellFormedFrom(DialBounds, 0)
  {
    PrefixDecomposes(PhysicalMinimum(2), 3, 1, 2);
    PrefixDecomposes(PhysicalMaximum(2), 4, 1, 2);
    PrefixDecomposes(LogicalMinimum(2), 1, 1, 2);
    PrefixDecomposes(LogicalMaximum(2), 2, 1, 2);
    PrefixDecomposes(HidInput(1), 8, 0, 1);
    PrefixDecomposes(EndCollection(0), 12, 0, 0);
    assert WellFormedFrom(DialBounds, 5);
    assert WellFormedFrom(DialBounds, 4);
    assert WellFormedFrom(DialBounds, 3);
    assert WellFormedFrom(DialBounds, 2);
    assert WellFormedFrom(DialBounds, 1);
    assert WellFormedFrom(DialBounds, 0);
  }

  /** The fields cpp:47-52 declares, and the globals in effect after it. */
  lemma DialBoundsLayout()
    ensures Fields(DialBounds, Globals(1, 15, 1, 0, 1)) == [Field(InputReport, 1, 15, 1, -3600, 3600)]
    ensures GlobalsAfter(DialBounds, Globals(1, 15, 1, 0, 1)) == Globals(1, 15, 1, -3600, 3600)
  {
    DialBoundsItems();
    ItemStep(DialBounds, 5, Item(EndCollection(0), []),
      Globals(1, 15, 1, -3600, 3600), Globals(1, 15, 1, -3600, 3600), []);
    ItemStep(DialBounds, 4, Item(HidInput(1), [0x06]),
      Globals(1, 15, 1, -3600, 3600), Globals(1, 15, 1, -3600, 3600), [Field(InputReport, 1, 15, 1, -3600, 3600)]);
    ItemStep(DialBounds, 3, Item(LogicalMaximum(2), [0x10, 0x0e]),
      Globals(1, 15, 1, -3600, 1), Globals(1, 15, 1, -3600, 3600), []);
    ItemStep(DialBounds, 2, Item(LogicalMinimum(2), [0xf0, 0xf1]),
      Globals(1, 15, 1, 0, 1), Globals(1, 15, 1, -3600, 1), []);
    ItemStep(DialBounds, 1, Item(PhysicalMaximum(2), [0x10, 0x0e]),
      Globals(1, 15, 1, 0, 1), Globals(1, 15, 1, 0, 1), []);
    ItemStep(DialBounds, 0, Item(PhysicalMinimum(2), [0xf0, 0xf1]),
      Globals(1, 15, 1, 0, 1), Globals(1, 15, 1, 0, 1), []);
  }

  /** What each item of cpp:54-57 does to the globals in effect, and the field it declares. */
  lemma HapticFeedbackItems()
    ensures Update(Globals(1, 15, 1, -3600, 3600), Item(ReportId(1), [HapticFeedbackReportId])) == Globals(2, 15, 1, -3600, 3600) && FieldOf(Globals(1, 15, 1, -3600, 3600), Item(ReportId(1), [HapticFeedbackReportId])) == []
    ensures Update(Globals(2, 15, 1, -3600, 3600), Item(UsagePage(1), [0x0e])) == Globals(2, 15, 1, -3600, 3600) && FieldOf(Globals(2, 15, 1, -3600, 3600), Item(UsagePage(1), [0x0e])) == []
    ensures Update(Globals(2, 15, 1, -3600, 3600), Item(Usage(1), [0x01])) == Globals(2, 15, 1, -3600, 3600) && FieldOf(Globals(2, 15, 1, -3600, 3600), Item(Usage(1), [0x01])) == []
    ensures Update(Globals(2, 15, 1, -3600, 3600), Item(Collection(1), [0x02])) == Globals(2, 15, 1, -3600, 3600) && FieldOf(Globals(2, 15, 1, -3600, 3600), Item(Collection(1), [0x02])) == []
  {
    PrefixDecomposes(ReportId(1), 8, 1, 1);
    PrefixDecomposes(UsagePage(1), 0, 1, 1);
    PrefixDecomposes(Usage(1), 0, 2, 1);
    PrefixDecomposes(Collection(1), 10, 0, 1);
  }

  /** Every item of cpp:54-57 is a framed short item of a type and tag the standard defines. */
  lemma HapticFeedbackWellFormed()
    ensures WellFormedFrom(HapticFeedback, 0)
  {
    PrefixDecomposes(ReportId(1), 8, 1, 1);
    PrefixDecomposes(UsagePage(1), 0, 1, 1);
    PrefixDecomposes(Usage(1), 0, 2, 1);
    PrefixDecomposes(Collection(1), 10, 0, 1);
    assert WellFormedFrom(HapticFeedback, 3);
    assert WellFormedFrom(HapticFeedback, 2);
    assert WellFormedFrom(HapticFeedback, 1);
    assert WellFormedFrom(HapticFeedback, 0);
  }

  /** The fields cpp:54-57 declares, and the globals in effect after it. */
  lemma HapticFeedbackLayout()
    ensures Fields(HapticFeedback, Globals(1, 15, 1, -3600, 3600)) == []
    ensures GlobalsAfter(HapticFeedback, Globals(1, 15, 1, -3600, 3600)) == Globals(2, 15, 1, -3600, 3600)
  {
    HapticFeedbackItems();
    ItemStep(HapticFeedback, 3, Item(Collection(1), [0x02]),
      Globals(2, 15, 1, -3600, 3600), Globals(2, 15, 1, -3600, 3600), []);
    ItemStep(HapticFeedback, 2, Item(Usage(1), [0x01]),
      Globals(2, 15, 1, -3600, 3600), Globals(2, 15, 1, -3600, 3600), []);
    ItemStep(HapticFeedback, 1, Item(UsagePage(1), [0x0e]),
      Globals(2, 15, 1, -3600, 3600), Globals(2, 15, 1, -3600, 3600), []);
    ItemStep(HapticFeedback, 0, Item(ReportId(1), [HapticFeedbackReportId]),
      Globals(1, 15, 1, -3600, 3600), Globals(2, 15, 1, -3600, 3600), []);
  }

  /** What each item of cpp:59-61 does to the globals in effect, and the field it declares. */
  lemma WaveformListItems()
    ensures Update(Globals(2, 15, 1, -3600, 3600), Item(UsagePage(1), [0x0e])) == Globals(2, 15, 1, -3600, 3600) && FieldOf(Globals(2, 15, 1, -3600, 3600), Item(UsagePage(1), [0x0e])) == []
    ensures Update(Globals(2, 15, 1, -3600, 3600), Item(Usage(1), [0x10])) == Globals(2, 15, 1, -3600, 3600) && FieldOf(Globals(2, 15, 1, -3600, 3600), Item(Usage(1), [0x10])) == []
    ensures Update(Globals(2, 15, 1, -3600, 3600), Item(Collection(1), [0x02])) == Globals(2, 15, 1, -3600, 3600) && FieldOf(Globals(2, 15, 1, -3600, 3600), Item(Collection(1), [0x02])) == []
  {
    PrefixDecomposes(UsagePage(1), 0, 1, 1);
    PrefixDecomposes(Usage(1), 0, 2, 1);
    PrefixDecomposes(Collection(1), 10, 0, 1);
  }

  /** Every item of cpp:59-61 is a framed short item of a type and tag the standard defines. */
  lemma WaveformListWellFormed()
    ensures WellFormedFrom(WaveformList, 0)
  {
    PrefixDecomposes(UsagePage(1), 0, 1, 1);
    PrefixDecomposes(Usage(1), 0, 2, 1);
    PrefixDecomposes(Collection(1), 10, 0, 1);
    assert WellFormedFrom(WaveformList, 2);
    assert WellFormedFrom(WaveformList, 1);
    assert WellFormedFrom(WaveformList, 0);
  }

  /** The fields cpp:59-61 declares, and the globals in effect after it. */
  lemma WaveformListLayout()
    ensures Fields(WaveformList, Globals(2, 15, 1, -3600, 3600)) == []
    ensures GlobalsAfter(WaveformList, Globals(2, 15, 1, -3600, 3600)) == Globals(2, 15, 1, -3600, 3600)
  {
    WaveformListItems();
    ItemStep(WaveformList, 2, Item(Collection(1), [0x02]),
      Globals(2, 15, 1, -3600, 3600), Globals(2, 15, 1, -3600, 3600), []);
    ItemStep(WaveformList, 1, Item(Usage(1), [0x10]),
      Globals(2, 15, 1, -3600, 3600), Globals(2, 15, 1, -3600, 3600), []);
    ItemStep(WaveformList, 0, Item(UsagePage(1), [0x0e]),
      Globals(2, 15, 1, -3600, 3600), Globals(2, 15, 1, -3600, 3600), []);
  }

  /** What each item of cpp:62-70 does to the globals in effect, and the field it declares. */
  lemma Ordinal3Items()
    ensures Update(Globals(2, 15, 1, -3600, 3600), Item(UsagePage(1), [0x0a])) == Globals(2, 15, 1, -3600, 3600) && FieldOf(Globals(2, 15, 1, -3600, 3600), Item(UsagePage(1), [0x0a])) == []
    ensures Update(Globals(2, 15, 1, -3600, 3600), Item(Usage(1), [0x03])) == Globals(2, 15, 1, -3600, 3600) && FieldOf(Globals(2, 15, 1, -3600, 3600), Item(Usage(1), [0x03])) == []
    ensures Update(Globals(2, 15, 1, -3600, 3600), Item(ReportCount(1), [0x01])) == Globals(2, 15, 1, -3600, 3600) && FieldOf(Globals(2, 15, 1, -3600, 3600), Item(ReportCount(1), [0x01])) == []
    ensures Update(Globals(2, 15, 1, -3600, 3600), Item(ReportSize(1), [0x08])) == Globals(2, 8, 1, -3600, 3600) && FieldOf(Globals(2, 15, 1, -3600, 3600), Item(ReportSize(1), [0x08])) == []
    ensures Update(Globals(2, 8, 1, -3600, 3600), Item(LogicalMinimum(1), [0x03])) == Globals(2, 8, 1, 3, 3600) && FieldOf(Globals(2, 8, 1, -3600, 3600), Item(LogicalMinimum(1), [0x03])) == []
    ensures Update(Globals(2, 8, 1, 3, 3600), Item(LogicalMaximum(1), [0x03])) == Globals(2, 8, 1, 3, 3) && FieldOf(Globals(2, 8, 1, 3, 3600), Item(LogicalMaximum(1), [0x03])) == []
    ensures Update(Globals(2, 8, 1, 3, 3), Item(PhysicalMinimum(2), [0x03, 0x10])) == Globals(2, 8, 1, 3, 3) && FieldOf(Globals(2, 8, 1, 3, 3), Item(PhysicalMinimum(2), [0x03, 0x10])) == []
    ensures Update(Globals(2, 8, 1, 3, 3), Item(PhysicalMaximum(2), [0x03, 0x10])) == Globals(2, 8, 1, 3, 3) && FieldOf(Globals(2, 8, 1, 3, 3), Item(PhysicalMaximum(2), [0x03, 0x10])) == []
    ensures Update(Globals(2, 8, 1, 3, 3), Item(Feature(1), [0x03])) == Globals(2, 8, 1, 3, 3) && FieldOf(Globals(2, 8, 1, 3, 3), Item(Feature(1), [0x03])) == [Field(FeatureReport, 2, 8, 1, 3, 3)]
  {
    PrefixDecomposes(UsagePage(1), 0, 1, 1);
    PrefixDecomposes(Usage(1), 0, 2, 1);
    PrefixDecomposes(ReportCount(1), 9, 1, 1);
    PrefixDecomposes(ReportSize(1), 7, 1, 1);
    PrefixDecomposes(LogicalMinimum(1), 1, 1, 1);
    PrefixDecomposes(LogicalMaximum(1), 2, 1, 1);
    PrefixDecomposes(PhysicalMinimum(2), 3, 1, 2);
    PrefixDecomposes(PhysicalMaximum(2), 4, 1, 2);
    PrefixDecomposes(Feature(1), 11, 0, 1);
  }

  /** Every item of cpp:62-70 is a framed short item of a type and tag the standard defines. */
  lemma Ordinal3WellFormed()
    ensures WellFormedFrom(Ordinal3, 0)
  {
    PrefixDecomposes(UsagePage(1), 0, 1, 1);
    PrefixDecomposes(Usage(1), 0, 2, 1);
    PrefixDecomposes(ReportCount(1), 9, 1, 1);
    PrefixDecomposes(ReportSize(1), 7, 1, 1);
    PrefixDecomposes(LogicalMinimum(1), 1, 1, 1);
    PrefixDecomposes(LogicalMaximum(1), 2, 1, 1);
    PrefixDecomposes(PhysicalMinimum(2), 3, 1, 2);
    PrefixDecomposes(PhysicalMaximum(2), 4, 1, 2);
    PrefixDecomposes(Feature(1), 11, 0, 1);
    assert WellFormedFrom(Ordinal3, 8);
    assert WellFormedFrom(Ordinal3, 7);
    assert WellFormedFrom(Ordinal3, 6);
    assert WellFormedFrom(Ordinal3, 5);
    assert WellFormedFrom(Ordinal3, 4);
    assert WellFormedFrom(Ordinal3, 3);
    assert WellFormedFrom(Ordinal3, 2);
    assert WellFormedFrom(Ordinal3, 1);
    assert WellFormedFrom(Ordinal3, 0);
  }

  /** The fields cpp:62-70 declares, and the globals in effect after it. */
  lemma Ordinal3Layout()
    ensures Fields(Ordinal3, Globals(2, 15, 1, -3600, 3600)) == [Field(FeatureReport, 2, 8, 1, 3, 3)]
    ensures GlobalsAfter(Ordinal3, Globals(2, 15, 1, -3600, 3600)) == Globals(2, 8, 1, 3, 3)
  {
    Ordinal3Items();
    ItemStep(Ordinal3, 8, Item(Feature(1), [0x03]),
      Globals(2, 8, 1, 3, 3), Globals(2, 8, 1, 3, 3), [Field(FeatureReport, 2, 8, 1, 3, 3)]);
    ItemStep(Ordinal3, 7, Item(PhysicalMaximum(2), [0x03, 0x10]),
      Globals(2, 8, 1, 3, 3), Globals(2, 8, 1, 3, 3), []);
    ItemStep(Ordinal3, 6, Item(PhysicalMinimum(2), [0x03, 0x10]),
      Globals(2, 8, 1, 3, 3), Globals(2, 8, 1, 3, 3), []);
    ItemStep(Ordinal3, 5, Item(LogicalMaximum(1), [0x03]),
      Globals(2, 8, 1, 3, 3600), Globals(2, 8, 1, 3, 3), []);
    ItemStep(Ordinal3, 4, Item(LogicalMinimum(1), [0x03]),
      Globals(2, 8, 1, -3600, 3600), Globals(2, 8, 1, 3, 3600), []);
    ItemStep(Ordinal3, 3, Item(ReportSize(1), [0x08]),
      Globals(2, 15, 1, -3600, 3600), Globals(2, 8, 1, -3600, 3600), []);
    ItemStep(Ordinal3, 2, Item(ReportCount(1), [0x01]),
      Globals(2, 15, 1, -3600, 3600), Globals(2, 15, 1, -3600, 3600), []);
    ItemStep(Ordinal3, 1, Item(Usage(1), [0x03]),
      Globals(2, 15, 1, -3600, 3600), Globals(2, 15, 1, -3600, 3600), []);
    ItemStep(Ordinal3, 0, Item(UsagePage(1), [0x0a]),
      Globals(2, 15, 1, -3600, 3600), Globals(2, 15, 1, -3600, 3600), []);
  }

  /** What each item of cpp:71-77 does to the globals in effect, and the field it declares. */
  lemma Ordinal4Items()
    ensures Update(Globals(2, 8, 1, 3, 3), Item(Usage(1), [0x04])) == Globals(2, 8, 1, 3, 3) && FieldOf(Globals(2, 8, 1, 3, 3), Item(Usage(1), [0x04])) == []
    ensures Update(Globals(2, 8, 1, 3, 3), Item(LogicalMinimum(1), [0x04])) == Globals(2, 8, 1, 4, 3) && FieldOf(Globals(2, 8, 1, 3, 3), Item(LogicalMinimum(1), [0x04])) == []
    ensures Update(Globals(2, 8, 1, 4, 3), Item(LogicalMaximum(1), [0x04])) == Globals(2, 8, 1, 4, 4) && FieldOf(Globals(2, 8, 1, 4, 3), Item(LogicalMaximum(1), [0x04])) == []
    ensures Update(Globals(2, 8, 1, 4, 4), Item(PhysicalMinimum(2), [0x04, 0x10])) == Globals(2, 8, 1, 4, 4) && FieldOf(Globals(2, 8, 1, 4, 4), Item(PhysicalMinimum(2), [0x04, 0x10])) == []
    ensures Update(Globals(2, 8, 1, 4, 4), Item(PhysicalMaximum(2), [0x04, 0x10])) == Globals(2, 8, 1, 4, 4) && FieldOf(Globals(2, 8, 1, 4, 4), Item(PhysicalMaximum(2), [0x04, 0x10])) == []
    ensures Update(Globals(2, 8, 1, 4, 4), Item(Feature(1), [0x03])) == Globals(2, 8, 1, 4, 4) && FieldOf(Globals(2, 8, 1, 4, 4), Item(Feature(1), [0x03])) == [Field(FeatureReport, 2, 8, 1, 4, 4)]
    ensures Update(Globals(2, 8, 1, 4, 4), Item(EndCollection(0), [])) == Globals(2, 8, 1, 4, 4) && FieldOf(Globals(2, 8, 1, 4, 4), Item(EndCollection(0), [])) == []
  {
    PrefixDecomposes(Usage(1), 0, 2, 1);
    PrefixDecomposes(LogicalMinimum(1), 1, 1, 1);
    PrefixDecomposes(LogicalMaximum(1), 2, 1, 1);
    PrefixDecomposes(PhysicalMinimum(2), 3, 1, 2);
    PrefixDecomposes(PhysicalMaximum(2), 4, 1, 2);
    PrefixDecomposes(Feature(1), 11, 0, 1);
    PrefixDecomposes(EndCollection(0), 12, 0, 0);
  }

  /** Every item of cpp:71-77 is a framed short item of a type and tag the standard defines. */
  lemma Ordinal4WellFormed()
    ensures WellFormedFrom(Ordinal4, 0)
  {
    PrefixDecomposes(Usage(1), 0, 2, 1);
    PrefixDecomposes(LogicalMinimum(1), 1, 1, 1);
    PrefixDecomposes(LogicalMaximum(1), 2, 1, 1);
    PrefixDecomposes(PhysicalMinimum(2), 3, 1, 2);
    PrefixDecomposes(PhysicalMaximum(2), 4, 1, 2);
    PrefixDecomposes(Feature(1), 11, 0, 1);
    PrefixDecomposes(EndCollection(0), 12, 0, 0);
    assert WellFormedFrom(Ordinal4, 6);
    assert WellFormedFrom(Ordinal4, 5);
    assert WellFormedFrom(Ordinal4, 4);
    assert WellFormedFrom(Ordinal4, 3);
    assert WellFormedFrom(Ordinal4, 2);
    assert WellFormedFrom(Ordinal4, 1);
    assert WellFormedFrom(Ordinal4, 0);
  }

  /** The fields cpp:71-77 declares, and the globals in effect after it. */
  lemma Ordinal4Layout()
    ensures Fields(Ordinal4, Globals(2, 8, 1, 3, 3)) == [Field(FeatureReport, 2, 8, 1, 4, 4)]
    ensures GlobalsAfter(Ordinal4, Globals(2, 8, 1, 3, 3)) == Globals(2, 8, 1, 4, 4)
  {
    Ordinal4Items();
    ItemStep(Ordinal4, 6, Item(EndCollection(0), []),
      Globals(2, 8, 1, 4, 4), Globals(2, 8, 1, 4, 4), []);
    ItemStep(Ordinal4, 5, Item(Feature(1), [0x03]),
      Globals(2, 8, 1, 4, 4), Globals(2, 8, 1, 4, 4), [Field(FeatureReport, 2, 8, 1, 4, 4)]);
    ItemStep(Ordinal4, 4, Item(PhysicalMaximum(2), [0x04, 0x10]),
      Globals(2, 8, 1, 4, 4), Globals(2, 8, 1, 4, 4), []);
    ItemStep(Ordinal4, 3, Item(PhysicalMinimum(2), [0x04, 0x10]),
      Globals(2, 8, 1, 4, 4), Globals(2, 8, 1, 4, 4), []);
    ItemStep(Ordinal4, 2, Item(LogicalMaximum(1), [0x04]),
      Globals(2, 8, 1, 4, 3), Globals(2, 8, 1, 4, 4), []);
    ItemStep(Ordinal4, 1, Item(LogicalMinimum(1), [0x04]),
      Globals(2, 8, 1, 3, 3), Globals(2, 8, 1, 4, 3), []);
    ItemStep(Ordinal4, 0, Item(Usage(1), [0x04]),
      Globals(2, 8, 1, 3, 3), Globals(2, 8, 1, 3, 3), []);
  }

  /** What each item of cpp:79-90 does to the globals in effect, and the field it declares. */
  lemma DurationListItems()
    ensures Update(Globals(2, 8, 1, 4, 4), Item(UsagePage(1), [0x0e])) == Globals(2, 8, 1, 4, 4) && FieldOf(Globals(2, 8, 1, 4, 4), Item(UsagePage(1), [0x0e])) == []
    ensures Update(Globals(2, 8, 1, 4, 4), Item(Usage(1), [0x11])) == Globals(2, 8, 1, 4, 4) && FieldOf(Globals(2, 8, 1, 4, 4), Item(Usage(1), [0x11])) == []
    ensures Update(Globals(2, 8, 1, 4, 4), Item(Collection(1), [0x02])) == Globals(2, 8, 1, 4, 4) && FieldOf(Globals(2, 8, 1, 4, 4), Item(Collection(1), [0x02])) == []
    ensures Update(Globals(2, 8, 1, 4, 4), Item(UsagePage(1), [0x0a])) == Globals(2, 8, 1, 4, 4) && FieldOf(Globals(2, 8, 1, 4, 4), Item(UsagePage(1), [0x0a])) == []
    ensures Update(Globals(2, 8, 1, 4, 4), Item(Usage(1), [0x03])) == Globals(2, 8, 1, 4, 4) && FieldOf(Globals(2, 8, 1, 4, 4), Item(Usage(1), [0x03])) == []
    ensures Update(Globals(2, 8, 1, 4, 4), Item(Usage(1), [0x04])) == Globals(2, 8, 1, 4, 4) && FieldOf(Globals(2, 8, 1, 4, 4), Item(Usage(1), [0x04])) == []
    ensures Update(Globals(2, 8, 1, 4, 4), Item(LogicalMinimum(1), [0x00])) == Globals(2, 8, 1, 0, 4) && FieldOf(Globals(2, 8, 1, 4, 4), Item(LogicalMinimum(1), [0x00])) == []
    ensures Update(Globals(2, 8, 1, 0, 4), Item(LogicalMaximum(2), [0xff, 0x0f])) == Globals(2, 8, 1, 0, 4095) && FieldOf(Globals(2, 8, 1, 0, 4), Item(LogicalMaximum(2), [0xff, 0x0f])) == []
    ensures Update(Globals(2, 8, 1, 0, 4095), Item(ReportCount(1), [0x02])) == Globals(2, 8, 2, 0, 4095) && FieldOf(Globals(2, 8, 1, 0, 4095), Item(ReportCount(1), [0x02])) == []
    ensures Update(Globals(2, 8, 2, 0, 4095), Item(ReportSize(1), [0x08])) == Globals(2, 8, 2, 0, 4095) && FieldOf(Globals(2, 8, 2, 0, 4095), Item(ReportSize(1), [0x08])) == []
    ensures Update(Globals(2, 8, 2, 0, 4095), Item(Feature(1), [0x02])) == Globals(2, 8, 2, 0, 4095) && FieldOf(Globals(2, 8, 2, 0, 4095), Item(Feature(1), [0x02])) == [Field(FeatureReport, 2, 8, 2, 0, 4095)]
    ensures Update(Globals(2, 8, 2, 0, 4095), Item(EndCollection(0), [])) == Globals(2, 8, 2, 0, 4095) && FieldOf(Globals(2, 8, 2, 0, 4095), Item(EndCollection(0), [])) == []
  {
    PrefixDecomposes(UsagePage(1), 0, 1, 1);
    PrefixDecomposes(Usage(1), 0, 2, 1);
    PrefixDecomposes(Collection(1), 10, 0, 1);
    PrefixDecomposes(LogicalMinimum(1), 1, 1, 1);
    PrefixDecomposes(LogicalMaximum(2), 2, 1, 2);
    PrefixDecomposes(ReportCount(1), 9, 1, 1);
    PrefixDecomposes(ReportSize(1), 7, 1, 1);
    PrefixDecomposes(Feature(1), 11, 0, 1);
    PrefixDecomposes(EndCollection(0), 12, 0, 0);
  }

  /** Every item of cpp:79-90 is a framed short item of a type and tag the standard defines. */
  lemma DurationListWellFormed()
    ensures WellFormedFrom(DurationList, 0)
  {
    PrefixDecomposes(UsagePage(1), 0, 1, 1);
    PrefixDecomposes(Usage(1), 0, 2, 1);
    PrefixDecomposes(Collection(1), 10, 0, 1);
    PrefixDecomposes(LogicalMinimum(1), 1, 1, 1);
    PrefixDecomposes(LogicalMaximum(2), 2, 1, 2);
    PrefixDecomposes(ReportCount(1), 9, 1, 1);
    PrefixDecomposes(ReportSize(1), 7, 1, 1);
    PrefixDecomposes(Feature(1), 11, 0, 1);
    PrefixDecomposes(EndCollection(0), 12, 0, 0);
    assert WellFormedFrom(DurationList, 11);
    assert WellFormedFrom(DurationList, 10);
    assert WellFormedFrom(DurationList, 9);
    assert WellFormedFrom(DurationList, 8);
    assert WellFormedFrom(DurationList, 7);
    assert WellFormedFrom(DurationList, 6);
    assert WellFormedFrom(DurationList, 5);
    assert WellFormedFrom(DurationList, 4);
    assert WellFormedFrom(DurationList, 3);
    assert WellFormedFrom(DurationList, 2);
    assert WellFormedFrom(DurationList, 1);
    assert WellFormedFrom(DurationList, 0);
  }

  /** The fields cpp:79-90 declares, and the globals in effect after it. */
  lemma DurationListLayout()
    ensures Fields(DurationList, Globals(2, 8, 1, 4, 4)) == [Field(FeatureReport, 2, 8, 2, 0, 4095)]
    ensures GlobalsAfter(DurationList, Globals(2, 8, 1, 4, 4)) == Globals(2, 8, 2, 0, 4095)
  {
    DurationListItems();
    ItemStep(DurationList, 11, Item(EndCollection(0), []),
      Globals(2, 8, 2, 0, 4095), Globals(2, 8, 2, 0, 4095), []);
    ItemStep(DurationList, 10, Item(Feature(1), [0x02]),
      Globals(2, 8, 2, 0, 4095), Globals(2, 8, 2, 0, 4095), [Field(FeatureReport, 2, 8, 2, 0, 4095)]);
    ItemStep(DurationList, 9, Item(ReportSize(1), [0x08]),
      Globals(2, 8, 2, 0, 4095), Globals(2, 8, 2, 0, 4095), []);
    ItemStep(DurationList, 8, Item(ReportCount(1), [0x02]),
      Globals(2, 8, 1, 0, 4095), Globals(2, 8, 2, 0, 4095), []);
    ItemStep(DurationList, 7, Item(LogicalMaximum(2), [0xff, 0x0f]),
      Globals(2, 8, 1, 0, 4), Globals(2, 8, 1, 0, 4095), []);
    ItemStep(DurationList, 6, Item(LogicalMinimum(1), [0x00]),
      Globals(2, 8, 1, 4, 4), Globals(2, 8, 1, 0, 4), []);
    ItemStep(DurationList, 5, Item(Usage(1), [0x04]),
      Globals(2, 8, 1, 4, 4), Globals(2, 8, 1, 4, 4), []);
    ItemStep(DurationList, 4, Item(Usage(1), [0x03]),
      Globals(2, 8, 1, 4, 4), Globals(2, 8, 1, 4, 4), []);
    ItemStep(DurationList, 3, Item(UsagePage(1), [0x0a]),
      Globals(2, 8, 1, 4, 4), Globals(2, 8, 1, 4, 4), []);
    ItemStep(DurationList, 2, Item(Collection(1), [0x02]),
      Globals(2, 8, 1, 4, 4), Globals(2, 8, 1, 4, 4), []);
    ItemStep(DurationList, 1, Item(Usage(1), [0x11]),
      Globals(2, 8, 1, 4, 4), Globals(2, 8, 1, 4, 4), []);
    ItemStep(DurationList, 0, Item(UsagePage(1), [0x0e]),
      Globals(2, 8, 1, 4, 4), Globals(2, 8, 1, 4, 4), []);
  }

  /** What each item of cpp:92-97 does to the globals in effect, and the field it declares. */
  lemma AutoTriggerItems()
    ensures Update(Globals(2, 8, 2, 0, 4095), Item(Usage(1), [0x20])) == Globals(2, 8, 2, 0, 4095) && FieldOf(Globals(2, 8, 2, 0, 4095), Item(Usage(1), [0x20])) == []
    ensures Update(Globals(2, 8, 2, 0, 4095), Item(LogicalMinimum(2), [0x00, 0x10])) == Globals(2, 8, 2, 0x1000, 4095) && FieldOf(Globals(2, 8, 2, 0, 4095), Item(LogicalMinimum(2), [0x00, 0x10])) == []
    ensures Update(Globals(2, 8, 2, 0x1000, 4095), Item(LogicalMaximum(2), [0x04, 0x10])) == Globals(2, 8, 2, 0x1000, 0x1004) && FieldOf(Globals(2, 8, 2, 0x1000, 4095), Item(LogicalMaximum(2), [0x04, 0x10])) == []
    ensures Update(Globals(2, 8, 2, 0x1000, 0x1004), Item(ReportCount(1), [0x01])) == Globals(2, 8, 1, 0x1000, 0x1004) && FieldOf(Globals(2, 8, 2, 0x1000, 0x1004), Item(ReportCount(1), [0x01])) == []
    ensures Update(Globals(2, 8, 1, 0x1000, 0x1004), Item(ReportSize(1), [0x10])) == Globals(2, 16, 1, 0x1000, 0x1004) && FieldOf(Globals(2, 8, 1, 0x1000, 0x1004), Item(ReportSize(1), [0x10])) == []
    ensures Update(Globals(2, 16, 1, 0x1000, 0x1004), Item(Feature(1), [0x02])) == Globals(2, 16, 1, 0x1000, 0x1004) && FieldOf(Globals(2, 16, 1, 0x1000, 0x1004), Item(Feature(1), [0x02])) == [Field(FeatureReport, 2, 16, 1, 0x1000, 0x1004)]
  {
    PrefixDecomposes(Usage(1), 0, 2, 1);
    PrefixDecomposes(LogicalMinimum(2), 1, 1, 2);
    PrefixDecomposes(LogicalMaximum(2), 2, 1, 2);
    PrefixDecomposes(ReportCount(1), 9, 1, 1);
    PrefixDecomposes(ReportSize(1), 7, 1, 1);
    PrefixDecomposes(Feature(1), 11, 0, 1);
  }

  /** Every item of cpp:92-97 is a framed short item of a type and tag the standard defines. */
  lemma AutoTriggerWellFormed()
    ensures WellFormedFrom(AutoTrigger, 0)
  {
    PrefixDecomposes(Usage(1), 0, 2, 1);
    PrefixDecomposes(LogicalMinimum(2), 1, 1, 2);
    PrefixDecomposes(LogicalMaximum(2), 2, 1, 2);
    PrefixDecomposes(ReportCount(1), 9, 1, 1);
    PrefixDecomposes(ReportSize(1), 7, 1, 1);
    PrefixDecomposes(Feature(1), 11, 0, 1);
    assert WellFormedFrom(AutoTrigger, 5);
    assert WellFormedFrom(AutoTrigger, 4);
    assert WellFormedFrom(AutoTrigger, 3);
    assert WellFormedFrom(AutoTrigger, 2);
    assert WellFormedFrom(AutoTrigger, 1);
    assert WellFormedFrom(AutoTrigger, 0);
  }

  /** The fields cpp:92-97 declares, and the globals in effect after it. */
  lemma AutoTriggerLayout()
    ensures Fields(AutoTrigger, Globals(2, 8, 2, 0, 4095)) == [Field(FeatureReport, 2, 16, 1, 0x1000, 0x1004)]
    ensures GlobalsAfter(AutoTrigger, Globals(2, 8, 2, 0, 4095)) == Globals(2, 16, 1, 0x1000, 0x1004)
  {
    AutoTriggerItems();
    ItemStep(AutoTrigger, 5, Item(Feature(1), [0x02]),
      Globals(2, 16, 1, 0x1000, 0x1004), Globals(2, 16, 1, 0x1000, 0x1004), [Field(FeatureReport, 2, 16, 1, 0x1000, 0x1004)]);
    ItemStep(AutoTrigger, 4, Item(ReportSize(1), [0x10]),
      Globals(2, 8, 1, 0x1000, 0x1004), Globals(2, 16, 1, 0x1000, 0x1004), []);
    ItemStep(AutoTrigger, 3, Item(ReportCount(1), [0x01]),
      Globals(2, 8, 2, 0x1000, 0x1004), Globals(2, 8, 1, 0x1000, 0x1004), []);
    ItemStep(AutoTrigger, 2, Item(LogicalMaximum(2), [0x04, 0x10]),
      Globals(2, 8, 2, 0x1000, 4095), Globals(2, 8, 2, 0x1000, 0x1004), []);
    ItemStep(AutoTrigger, 1, Item(LogicalMinimum(2), [0x00, 0x10]),
      Globals(2, 8, 2, 0, 4095), Globals(2, 8, 2, 0x1000, 4095), []);
    ItemStep(AutoTrigger, 0, Item(Usage(1), [0x20]),
      Globals(2, 8, 2, 0, 4095), Globals(2, 8, 2, 0, 4095), []);
  }

  /** What each item of cpp:99-104 does to the globals in effect, and the field it declares. */
  lemma AssociatedControlItems()
    ensures Update(Globals(2, 16, 1, 0x1000, 0x1004), Item(Usage(1), [0x22])) == Globals(2, 16, 1, 0x1000, 0x1004) && FieldOf(Globals(2, 16, 1, 0x1000, 0x1004), Item(Usage(1), [0x22])) == []
    ensures Update(Globals(2, 16, 1, 0x1000, 0x1004), Item(LogicalMinimum(3), [0x37, 0x00, 0x01, 0x00])) == Globals(2, 16, 1, 0x10037, 0x1004) && FieldOf(Globals(2, 16, 1, 0x1000, 0x1004), Item(LogicalMinimum(3), [0x37, 0x00, 0x01, 0x00])) == []
    ensures Update(Globals(2, 16, 1, 0x10037, 0x1004), Item(LogicalMaximum(3), [0x37, 0x00, 0x01, 0x00])) == Globals(2, 16, 1, 0x10037, 0x10037) && FieldOf(Globals(2, 16, 1, 0x10037, 0x1004), Item(LogicalMaximum(3), [0x37, 0x00, 0x01, 0x00])) == []
    ensures Update(Globals(2, 16, 1, 0x10037, 0x10037), Item(ReportCount(1), [0x01])) == Globals(2, 16, 1, 0x10037, 0x10037) && FieldOf(Globals(2, 16, 1, 0x10037, 0x10037), Item(ReportCount(1), [0x01])) == []
    ensures Update(Globals(2, 16, 1, 0x10037, 0x10037), Item(ReportSize(1), [0x20])) == Globals(2, 32, 1, 0x10037, 0x10037) && FieldOf(Globals(2, 16, 1, 0x10037, 0x10037), Item(ReportSize(1), [0x20])) == []
    ensures Update(Globals(2, 32, 1, 0x10037, 0x10037), Item(Feature(1), [0x03])) == Globals(2, 32, 1, 0x10037, 0x10037) && FieldOf(Globals(2, 32, 1, 0x10037, 0x10037), Item(Feature(1), [0x03])) == [Field(FeatureReport, 2, 32, 1, 0x10037, 0x10037)]
  {
    PrefixDecomposes(Usage(1), 0, 2, 1);
    PrefixDecomposes(LogicalMinimum(3), 1, 1, 3);
    PrefixDecomposes(LogicalMaximum(3), 2, 1, 3);
    PrefixDecomposes(ReportCount(1), 9, 1, 1);
    PrefixDecomposes(ReportSize(1), 7, 1, 1);
    PrefixDecomposes(Feature(1), 11, 0, 1);
  }

  /** Every item of cpp:99-104 is a framed short item of a type and tag the standard defines. */
  lemma AssociatedControlWellFormed()
    ensures WellFormedFrom(AssociatedControl, 0)
  {
    PrefixDecomposes(Usage(1), 0, 2, 1);
    PrefixDecomposes(LogicalMinimum(3), 1, 1, 3);
    PrefixDecomposes(LogicalMaximum(3), 2, 1, 3);
    PrefixDecomposes(ReportCount(1), 9, 1, 1);
    PrefixDecomposes(ReportSize(1), 7, 1, 1);
    PrefixDecomposes(Feature(1), 11, 0, 1);
    assert WellFormedFrom(AssociatedControl, 5);
    assert WellFormedFrom(AssociatedControl, 4);
    assert WellFormedFrom(AssociatedControl, 3);
    assert WellFormedFrom(AssociatedControl, 2);
    assert WellFormedFrom(AssociatedControl, 1);
    assert WellFormedFrom(AssociatedControl, 0);
  }

  /** The fields cpp:99-104 declares, and the globals in effect after it. */
  lemma AssociatedControlLayout()
    ensures Fields(AssociatedControl, Globals(2, 16, 1, 0x1000, 0x1004)) == [Field(FeatureReport, 2, 32, 1, 0x10037, 0x10037)]
    ensures GlobalsAfter(AssociatedControl, Globals(2, 16, 1, 0x1000, 0x1004)) == Globals(2, 32, 1, 0x10037, 0x10037)
  {
    AssociatedControlItems();
    ItemStep(AssociatedControl, 5, Item(Feature(1), [0x03]),
      Globals(2, 32, 1, 0x10037, 0x10037), Globals(2, 32, 1, 0x10037, 0x10037), [Field(FeatureReport, 2, 32, 1, 0x10037, 0x10037)]);
    ItemStep(AssociatedControl, 4, Item(ReportSize(1), [0x20]),
      Globals(2, 16, 1, 0x10037, 0x10037), Globals(2, 32, 1, 0x10037, 0x10037), []);
    ItemStep(AssociatedControl, 3, Item(ReportCount(1), [0x01]),
      Globals(2, 16, 1, 0x10037, 0x10037), Globals(2, 16, 1, 0x10037, 0x10037), []);
    ItemStep(AssociatedControl, 2, Item(LogicalMaximum(3), [0x37, 0x00, 0x01, 0x00]),
      Globals(2, 16, 1, 0x10037, 0x1004), Globals(2, 16, 1, 0x10037, 0x10037), []);
    ItemStep(AssociatedControl, 1, Item(LogicalMinimum(3), [0x37, 0x00, 0x01, 0x00]),
      Globals(2, 16, 1, 0x1000, 0x1004), Globals(2, 16, 1, 0x10037, 0x1004), []);
    ItemStep(AssociatedControl, 0, Item(Usage(1), [0x22]),
      Globals(2, 16, 1, 0x1000, 0x1004), Globals(2, 16, 1, 0x1000, 0x1004), []);
  }

  /** What each item of cpp:106-112 does to the globals in effect, and the field it declares. */
  lemma IntensityItems()
    ensures Update(Globals(2, 32, 1, 0x10037, 0x10037), Item(Usage(1), [0x23])) == Globals(2, 32, 1, 0x10037, 0x10037) && FieldOf(Globals(2, 32, 1, 0x10037, 0x10037), Item(Usage(1), [0x23])) == []
    ensures Update(Globals(2, 32, 1, 0x10037, 0x10037), Item(LogicalMinimum(1), [0x00])) == Globals(2, 32, 1, 0, 0x10037) && FieldOf(Globals(2, 32, 1, 0x10037, 0x10037), Item(LogicalMinimum(1), [0x00])) == []
    ensures Update(Globals(2, 32, 1, 0, 0x10037), Item(LogicalMaximum(1), [0x7f])) == Globals(2, 32, 1, 0, 127) && FieldOf(Globals(2, 32, 1, 0, 0x10037), Item(LogicalMaximum(1), [0x7f])) == []
    ensures Update(Globals(2, 32, 1, 0, 127), Item(ReportSize(1), [0x08])) == Globals(2, 8, 1, 0, 127) && FieldOf(Globals(2, 32, 1, 0, 127), Item(ReportSize(1), [0x08])) == []
    ensures Update(Globals(2, 8, 1, 0, 127), Item(HidOutput(1), [0x02])) == Globals(2, 8, 1, 0, 127) && FieldOf(Globals(2, 8, 1, 0, 127), Item(HidOutput(1), [0x02])) == [Field(OutputReport, 2, 8, 1, 0, 127)]
    ensures Update(Globals(2, 8, 1, 0, 127), Item(Usage(1), [0x23])) == Globals(2, 8, 1, 0, 127) && FieldOf(Globals(2, 8, 1, 0, 127), Item(Usage(1), [0x23])) == []
    ensures Update(Globals(2, 8, 1, 0, 127), Item(Feature(1), [0x02])) == Globals(2, 8, 1, 0, 127) && FieldOf(Globals(2, 8, 1, 0, 127), Item(Feature(1), [0x02])) == [Field(FeatureReport, 2, 8, 1, 0, 127)]
  {
    PrefixDecomposes(Usage(1), 0, 2, 1);
    PrefixDecomposes(LogicalMinimum(1), 1, 1, 1);
    PrefixDecomposes(LogicalMaximum(1), 2, 1, 1);
    PrefixDecomposes(ReportSize(1), 7, 1, 1);
    PrefixDecomposes(HidOutput(1), 9, 0, 1);
    PrefixDecomposes(Feature(1), 11, 0, 1);
  }

  /** Every item of cpp:106-112 is a framed short item of a type and tag the standard defines. */
  lemma IntensityWellFormed()
    ensures WellFormedFrom(Intensity, 0)
  {
    PrefixDecomposes(Usage(1), 0, 2, 1);
    PrefixDecomposes(LogicalMinimum(1), 1, 1, 1);
    PrefixDecomposes(LogicalMaximum(1), 2, 1, 1);
    PrefixDecomposes(ReportSize(1), 7, 1, 1);
    PrefixDecomposes(HidOutput(1), 9, 0, 1);
    PrefixDecomposes(Feature(1), 11, 0, 1);
    assert WellFormedFrom(Intensity, 6);
    assert WellFormedFrom(Intensity, 5);
    assert WellFormedFrom(Intensity, 4);
    assert WellFormedFrom(Intensity, 3);
    assert WellFormedFrom(Intensity, 2);
    assert WellFormedFrom(Intensity, 1);
    assert WellFormedFrom(Intensity, 0);
  }

  /** The fields cpp:106-112 declares, and the globals in effect after it. */
  lemma IntensityLayout()
    ensures Fields(Intensity, Globals(2, 32, 1, 0x10037, 0x10037)) == [Field(OutputReport, 2, 8, 1, 0, 127), Field(FeatureReport, 2, 8, 1, 0, 127)]
    ensures GlobalsAfter(Intensity, Globals(2, 32, 1, 0x10037, 0x10037)) == Globals(2, 8, 1, 0, 127)
  {
    IntensityItems();
    ItemStep(Intensity, 6, Item(Feature(1), [0x02]),
      Globals(2, 8, 1, 0, 127), Globals(2, 8, 1, 0, 127), [Field(FeatureReport, 2, 8, 1, 0, 127)]);
    ItemStep(Intensity, 5, Item(Usage(1), [0x23]),
      Globals(2, 8, 1, 0, 127), Globals(2, 8, 1, 0, 127), []);
    ItemStep(Intensity, 4, Item(HidOutput(1), [0x02]),
      Globals(2, 8, 1, 0, 127), Globals(2, 8, 1, 0, 127), [Field(OutputReport, 2, 8, 1, 0, 127)]);
    ItemStep(Intensity, 3, Item(ReportSize(1), [0x08]),
      Globals(2, 32, 1, 0, 127), Globals(2, 8, 1, 0, 127), []);
    ItemStep(Intensity, 2, Item(LogicalMaximum(1), [0x7f]),
      Globals(2, 32, 1, 0, 0x10037), Globals(2, 32, 1, 0, 127), []);
    ItemStep(Intensity, 1, Item(LogicalMinimum(1), [0x00]),
      Globals(2, 32, 1, 0x10037, 0x10037), Globals(2, 32, 1, 0, 0x10037), []);
    ItemStep(Intensity, 0, Item(Usage(1), [0x23]),
      Globals(2, 32, 1, 0x10037, 0x10037), Globals(2, 32, 1, 0x10037, 0x10037), []);
  }

  /** What each item of cpp:114-117 does to the globals in effect, and the field it declares. */
  lemma RepeatCountItems()
    ensures Update(Globals(2, 8, 1, 0, 127), Item(Usage(1), [0x24])) == Globals(2, 8, 1, 0, 127) && FieldOf(Globals(2, 8, 1, 0, 127), Item(Usage(1), [0x24])) == []
    ensures Update(Globals(2, 8, 1, 0, 127), Item(HidOutput(1), [0x02])) == Globals(2, 8, 1, 0, 127) && FieldOf(Globals(2, 8, 1, 0, 127), Item(HidOutput(1), [0x02])) == [Field(OutputReport, 2, 8, 1, 0, 127)]
    ensures Update(Globals(2, 8, 1, 0, 127), Item(Usage(1), [0x24])) == Globals(2, 8, 1, 0, 127) && FieldOf(Globals(2, 8, 1, 0, 127), Item(Usage(1), [0x24])) == []
    ensures Update(Globals(2, 8, 1, 0, 127), Item(Feature(1), [0x02])) == Globals(2, 8, 1, 0, 127) && FieldOf(Globals(2, 8, 1, 0, 127), Item(Feature(1), [0x02])) == [Field(FeatureReport, 2, 8, 1, 0, 127)]
  {
    PrefixDecomposes(Usage(1), 0, 2, 1);
    PrefixDecomposes(HidOutput(1), 9, 0, 1);
    PrefixDecomposes(Feature(1), 11, 0, 1);
  }

  /** Every item of cpp:114-117 is a framed short item of a type and tag the standard defines. */
  lemma RepeatCountWellFormed()
    ensures WellFormedFrom(RepeatCount, 0)
  {
    PrefixDecomposes(Usage(1), 0, 2, 1);
    PrefixDecomposes(HidOutput(1), 9, 0, 1);
    PrefixDecomposes(Feature(1), 11, 0, 1);
    assert WellFormedFrom(RepeatCount, 3);
    assert WellFormedFrom(RepeatCount, 2);
    assert WellFormedFrom(RepeatCount, 1);
    assert WellFormedFrom(RepeatCount, 0);
  }

  /** The fields cpp:114-117 declares, and the globals in effect after it. */
  lemma RepeatCountLayout()
    ensures Fields(RepeatCount, Globals(2, 8, 1, 0, 127)) == [Field(OutputReport, 2, 8, 1, 0, 127), Field(FeatureReport, 2, 8, 1, 0, 127)]
    ensures GlobalsAfter(RepeatCount, Globals(2, 8, 1, 0, 127)) == Globals(2, 8, 1, 0, 127)
  {
    RepeatCountItems();
    ItemStep(RepeatCount, 3, Item(Feature(1), [0x02]),
      Globals(2, 8, 1, 0, 127), Globals(2, 8, 1, 0, 127), [Field(FeatureReport, 2, 8, 1, 0, 127)]);
    ItemStep(RepeatCount, 2, Item(Usage(1), [0x24]),
      Globals(2, 8, 1, 0, 127), Globals(2, 8, 1, 0, 127), []);
    ItemStep(RepeatCount, 1, Item(HidOutput(1), [0x02]),
      Globals(2, 8, 1, 0, 127), Globals(2, 8, 1, 0, 127), [Field(OutputReport, 2, 8, 1, 0, 127)]);
    ItemStep(RepeatCount, 0, Item(Usage(1), [0x24]),
      Globals(2, 8, 1, 0, 127), Globals(2, 8, 1, 0, 127), []);
  }

  /** What each item of cpp:119-122 does to the globals in effect, and the field it declares. */
  lemma RetriggerPeriodItems()
    ensures Update(Globals(2, 8, 1, 0, 127), Item(Usage(1), [0x25])) == Globals(2, 8, 1, 0, 127) && FieldOf(Globals(2, 8, 1, 0, 127), Item(Usage(1), [0x25])) == []
    ensures Update(Globals(2, 8, 1, 0, 127), Item(HidOutput(1), [0x02])) == Globals(2, 8, 1, 0, 127) && FieldOf(Globals(2, 8, 1, 0, 127), Item(HidOutput(1), [0x02])) == [Field(OutputReport, 2, 8, 1, 0, 127)]
    ensures Update(Globals(2, 8, 1, 0, 127), Item(Usage(1), [0x25])) == Globals(2, 8, 1, 0, 127) && FieldOf(Globals(2, 8, 1, 0, 127), Item(Usage(1), [0x25])) == []
    ensures Update(Globals(2, 8, 1, 0, 127), Item(Feature(1), [0x02])) == Globals(2, 8, 1, 0, 127) && FieldOf(Globals(2, 8, 1, 0, 127), Item(Feature(1), [0x02])) == [Field(FeatureReport, 2, 8, 1, 0, 127)]
  {
    PrefixDecomposes(Usage(1), 0, 2, 1);
    PrefixDecomposes(HidOutput(1), 9, 0, 1);
    PrefixDecomposes(Feature(1), 11, 0, 1);
  }

  /** Every item of cpp:119-122 is a framed short item of a type and tag the standard defines. */
  lemma RetriggerPeriodWellFormed()
    ensures WellFormedFrom(RetriggerPeriod, 0)
  {
    PrefixDecomposes(Usage(1), 0, 2, 1);
    PrefixDecomposes(HidOutput(1), 9, 0, 1);
    PrefixDecomposes(Feature(1), 11, 0, 1);
    assert WellFormedFrom(RetriggerPeriod, 3);
    assert WellFormedFrom(RetriggerPeriod, 2);
    assert WellFormedFrom(RetriggerPeriod, 1);
    assert WellFormedFrom(RetriggerPeriod, 0);
  }

  /** The fields cpp:119-122 declares, and the globals in effect after it. */
  lemma RetriggerPeriodLayout()
    ensures Fields(RetriggerPeriod, Globals(2, 8, 1, 0, 127)) == [Field(OutputReport, 2, 8, 1, 0, 127), Field(FeatureReport, 2, 8, 1, 0, 127)]
    ensures GlobalsAfter(RetriggerPeriod, Globals(2, 8, 1, 0, 127)) == Globals(2, 8, 1, 0, 127)
  {
    RetriggerPeriodItems();
    ItemStep(RetriggerPeriod, 3, Item(Feature(1), [0x02]),
      Globals(2, 8, 1, 0, 127), Globals(2, 8, 1, 0, 127), [Field(FeatureReport, 2, 8, 1, 0, 127)]);
    ItemStep(RetriggerPeriod, 2, Item(Usage(1), [0x25]),
      Globals(2, 8, 1, 0, 127), Globals(2, 8, 1, 0, 127), []);
    ItemStep(RetriggerPeriod, 1, Item(HidOutput(1), [0x02]),
      Globals(2, 8, 1, 0, 127), Globals(2, 8, 1, 0, 127), [Field(OutputReport, 2, 8, 1, 0, 127)]);
    ItemStep(RetriggerPeriod, 0, Item(Usage(1), [0x25]),
      Globals(2, 8, 1, 0, 127), Globals(2, 8, 1, 0, 127), []);
  }

  /** What each item of cpp:124-127 does to the globals in effect, and the field it declares. */
  lemma WaveformCutoffTimeItems()
    ensures Update(Globals(2, 8, 1, 0, 127), Item(Usage(1), [0x28])) == Globals(2, 8, 1, 0, 127) && FieldOf(Globals(2, 8, 1, 0, 127), Item(Usage(1), [0x28])) == []
    ensures Update(Globals(2, 8, 1, 0, 127), Item(LogicalMaximum(2), [0xff, 0x7f])) == Globals(2, 8, 1, 0, 32767) && FieldOf(Globals(2, 8, 1, 0, 127), Item(LogicalMaximum(2), [0xff, 0x7f])) == []
    ensures Update(Globals(2, 8, 1, 0, 32767), Item(ReportSize(1), [0x10])) == Globals(2, 16, 1, 0, 32767) && FieldOf(Globals(2, 8, 1, 0, 32767), Item(ReportSize(1), [0x10])) == []
    ensures Update(Globals(2, 16, 1, 0, 32767), Item(Feature(1), [0x02])) == Globals(2, 16, 1, 0, 32767) && FieldOf(Globals(2, 16, 1, 0, 32767), Item(Feature(1), [0x02])) == [Field(FeatureReport, 2, 16, 1, 0, 32767)]
  {
    PrefixDecomposes(Usage(1), 0, 2, 1);
    PrefixDecomposes(LogicalMaximum(2), 2, 1, 2);
    PrefixDecomposes(ReportSize(1), 7, 1, 1);
    PrefixDecomposes(Feature(1), 11, 0, 1);
  }

  /** Every item of cpp:124-127 is a framed short item of a type and tag the standard defines. */
  lemma WaveformCutoffTimeWellFormed()
    ensures WellFormedFrom(WaveformCutoffTime, 0)
  {
    PrefixDecomposes(Usage(1), 0, 2, 1);
    PrefixDecomposes(LogicalMaximum(2), 2, 1, 2);
    PrefixDecomposes(ReportSize(1), 7, 1, 1);
    PrefixDecomposes(Feature(1), 11, 0, 1);
    assert WellFormedFrom(WaveformCutoffTime, 3);
    assert WellFormedFrom(WaveformCutoffTime, 2);
    assert WellFormedFrom(WaveformCutoffTime, 1);
    assert WellFormedFrom(WaveformCutoffTime, 0);
  }

  /** The fields cpp:124-127 declares, and the globals in effect after it. */
  lemma WaveformCutoffTimeLayout()
    ensures Fields(WaveformCutoffTime, Globals(2, 8, 1, 0, 127)) == [Field(FeatureReport, 2, 16, 1, 0, 32767)]
    ensures GlobalsAfter(WaveformCutoffTime, Globals(2, 8, 1, 0, 127)) == Globals(2, 16, 1, 0, 32767)
  {
    WaveformCutoffTimeItems();
    ItemStep(WaveformCutoffTime, 3, Item(Feature(1), [0x02]),
      Globals(2, 16, 1, 0, 32767), Globals(2, 16, 1, 0, 32767), [Field(FeatureReport, 2, 16, 1, 0, 32767)]);
    ItemStep(WaveformCutoffTime, 2, Item(ReportSize(1), [0x10]),
      Globals(2, 8, 1, 0, 32767), Globals(2, 16, 1, 0, 32767), []);
    ItemStep(WaveformCutoffTime, 1, Item(LogicalMaximum(2), [0xff, 0x7f]),
      Globals(2, 8, 1, 0, 127), Globals(2, 8, 1, 0, 32767), []);
    ItemStep(WaveformCutoffTime, 0, Item(Usage(1), [0x28]),
      Globals(2, 8, 1, 0, 127), Globals(2, 8, 1, 0, 127), []);
  }

  /** What each item of cpp:129-132 does to the globals in effect, and the field it declares. */
  lemma ManualTriggerItems()
    ensures Update(Globals(2, 16, 1, 0, 32767), Item(Usage(1), [0x21])) == Globals(2, 16, 1, 0, 32767) && FieldOf(Globals(2, 16, 1, 0, 32767), Item(Usage(1), [0x21])) == []
    ensures Update(Globals(2, 16, 1, 0, 32767), Item(HidOutput(1), [0x02])) == Globals(2, 16, 1, 0, 32767) && FieldOf(Globals(2, 16, 1, 0, 32767), Item(HidOutput(1), [0x02])) == [Field(OutputReport, 2, 16, 1, 0, 32767)]
    ensures Update(Globals(2, 16, 1, 0, 32767), Item(EndCollection(0), [])) == Globals(2, 16, 1, 0, 32767) && FieldOf(Globals(2, 16, 1, 0, 32767), Item(EndCollection(0), [])) == []
    ensures Update(Globals(2, 16, 1, 0, 32767), Item(EndCollection(0), [])) == Globals(2, 16, 1, 0, 32767) && FieldOf(Globals(2, 16, 1, 0, 32767), Item(EndCollection(0), [])) == []
  {
    PrefixDecomposes(Usage(1), 0, 2, 1);
    PrefixDecomposes(HidOutput(1), 9, 0, 1);
    PrefixDecomposes(EndCollection(0), 12, 0, 0);
  }

  /** Every item of cpp:129-132 is a framed short item of a type and tag the standard defines. */
  lemma ManualTriggerWellFormed()
    ensures WellFormedFrom(ManualTrigger, 0)
  {
    PrefixDecomposes(Usage(1), 0, 2, 1);
    PrefixDecomposes(HidOutput(1), 9, 0, 1);
    PrefixDecomposes(EndCollection(0), 12, 0, 0);
    assert WellFormedFrom(ManualTrigger, 3);
    assert WellFormedFrom(ManualTrigger, 2);
    assert WellFormedFrom(ManualTrigger, 1);
    assert WellFormedFrom(ManualTrigger, 0);
  }

  /** The fields cpp:129-132 declares, and the globals in effect after it. */
  lemma ManualTriggerLayout()
    ensures Fields(ManualTrigger, Globals(2, 16, 1, 0, 32767)) == [Field(OutputReport, 2, 16, 1, 0, 32767)]
    ensures GlobalsAfter(ManualTrigger, Globals(2, 16, 1, 0, 32767)) == Globals(2, 16, 1, 0, 32767)
  {
    ManualTriggerItems();
    ItemStep(ManualTrigger, 3, Item(EndCollection(0), []),
      Globals(2, 16, 1, 0, 32767), Globals(2, 16, 1, 0, 32767), []);
    ItemStep(ManualTrigger, 2, Item(EndCollection(0), []),
      Globals(2, 16, 1, 0, 32767), Globals(2, 16, 1, 0, 32767), []);
    ItemStep(ManualTrigger, 1, Item(HidOutput(1), [0x02]),
      Globals(2, 16, 1, 0, 32767), Globals(2, 16, 1, 0, 32767), [Field(OutputReport, 2, 16, 1, 0, 32767)]);
    ItemStep(ManualTrigger, 0, Item(Usage(1), [0x21]),
      Globals(2, 16, 1, 0, 32767), Globals(2, 16, 1, 0, 32767), []);
  }

  /** The fields cpp:24-46 declares, and the globals in effect after it. */
  lemma DialHeaderLayout()
    ensures Fields(DialHeader, NoGlobals) == [Field(InputReport, 1, 1, 1, 0, 1)]
    ensures GlobalsAfter(DialHeader, NoGlobals) == Globals(1, 15, 1, 0, 1)
  {
    ApplicationCollectionLayout();
    RadialControllerLayout();
    PressButtonLayout();
    DialUsageLayout();
    FieldsAppend(ApplicationCollection, RadialController, NoGlobals);
    FieldsAppend(ApplicationCollection + RadialController, PressButton, NoGlobals);
    FieldsAppend(ApplicationCollection + RadialController + PressButton, DialUsage, NoGlobals);
  }

  /** Every item of cpp:24-46 is a framed short item of a type and tag the standard defines. */
  lemma DialHeaderWellFormed()
    ensures WellFormedFrom(DialHeader, 0)
  {
    ApplicationCollectionWellFormed();
    RadialControllerWellFormed();
    PressButtonWellFormed();
    DialUsageWellFormed();
    WellFormedFromAppend(ApplicationCollection, RadialController, 0);
    WellFormedFromAppend(ApplicationCollection + RadialController, PressButton, 0);
    WellFormedFromAppend(ApplicationCollection + RadialController + PressButton, DialUsage, 0);
  }

  /** The fields cpp:24-52 declares, and the globals in effect after it. */
  lemma RadialControllerRegionLayout()
    ensures Fields(RadialControllerRegion, NoGlobals) == [Field(InputReport, 1, 1, 1, 0, 1), Field(InputReport, 1, 15, 1, -3600, 3600)]
    ensures GlobalsAfter(RadialControllerRegion, NoGlobals) == Globals(1, 15, 1, -3600, 3600)
  {
    DialHeaderLayout();
    DialBoundsLayout();
    FieldsAppend(DialHeader, DialBounds, NoGlobals);
  }

  /** Every item of cpp:24-52 is a framed short item of a type and tag the standard defines. */
  lemma RadialControllerRegionWellFormed()
    ensures WellFormedFrom(RadialControllerRegion, 0)
  {
    DialHeaderWellFormed();
    DialBoundsWellFormed();
    WellFormedFromAppend(DialHeader, DialBounds, 0);
  }

  /** The fields cpp:54-77 declares, and the globals in effect after it. */
  lemma HapticWaveformsLayout()
    ensures Fields(HapticWaveforms, Globals(1, 15, 1, -3600, 3600)) == [Field(FeatureReport, 2, 8, 1, 3, 3), Field(FeatureReport, 2, 8, 1, 4, 4)]
    ensures GlobalsAfter(HapticWaveforms, Globals(1, 15, 1, -3600, 3600)) == Globals(2, 8, 1, 4, 4)
  {
    HapticFeedbackLayout();
    WaveformListLayout();
    Ordinal3Layout();
    Ordinal4Layout();
    FieldsAppend(HapticFeedback, WaveformList, Globals(1, 15, 1, -3600, 3600));
    FieldsAppend(HapticFeedback + WaveformList, Ordinal3, Globals(1, 15, 1, -3600, 3600));
    FieldsAppend(HapticFeedback + WaveformList + Ordinal3, Ordinal4, Globals(1, 15, 1, -3600, 3600));
  }

  /** Every item of cpp:54-77 is a framed short item of a type and tag the standard defines. */
  lemma HapticWaveformsWellFormed()
    ensures WellFormedFrom(HapticWaveforms, 0)
  {
    HapticFeedbackWellFormed();
    WaveformListWellFormed();
    Ordinal3WellFormed();
    Ordinal4WellFormed();
    WellFormedFromAppend(HapticFeedback, WaveformList, 0);
    WellFormedFromAppend(HapticFeedback + WaveformList, Ordinal3, 0);
    WellFormedFromAppend(HapticFeedback + WaveformList + Ordinal3, Ordinal4, 0);
  }

  /** The fields cpp:54-90 declares, and the globals in effect after it. */
  lemma HapticListsLayout()
    ensures Fields(HapticLists, Globals(1, 15, 1, -3600, 3600)) == [
        Field(FeatureReport, 2, 8, 1, 3, 3),
        Field(FeatureReport, 2, 8, 1, 4, 4),
        Field(FeatureReport, 2, 8, 2, 0, 4095)]
    ensures GlobalsAfter(HapticLists, Globals(1, 15, 1, -3600, 3600)) == Globals(2, 8, 2, 0, 4095)
  {
    HapticWaveformsLayout();
    DurationListLayout();
    FieldsAppend(HapticWaveforms, DurationList, Globals(1, 15, 1, -3600, 3600));
  }

  /** Every item of cpp:54-90 is a framed short item of a type and tag the standard defines. */
  lemma HapticListsWellFormed()
    ensures WellFormedFrom(HapticLists, 0)
  {
    HapticWaveformsWellFormed();
    DurationListWellFormed();
    WellFormedFromAppend(HapticWaveforms, DurationList, 0);
  }

  /** The fields cpp:92-112 declares, and the globals in effect after it. */
  lemma TriggerControlsLayout()
    ensures Fields(TriggerControls, Globals(2, 8, 2, 0, 4095)) == [
        Field(FeatureReport, 2, 16, 1, 0x1000, 0x1004),
        Field(FeatureReport, 2, 32, 1, 0x10037, 0x10037),
        Field(OutputReport, 2, 8, 1, 0, 127),
        Field(FeatureReport, 2, 8, 1, 0, 127)]
    ensures GlobalsAfter(TriggerControls, Globals(2, 8, 2, 0, 4095)) == Globals(2, 8, 1, 0, 127)
  {
    AutoTriggerLayout();
    AssociatedControlLayout();
    IntensityLayout();
    FieldsAppend(AutoTrigger, AssociatedControl, Globals(2, 8, 2, 0, 4095));
    FieldsAppend(AutoTrigger + AssociatedControl, Intensity, Globals(2, 8, 2, 0, 4095));
  }

  /** Every item of cpp:92-112 is a framed short item of a type and tag the standard defines. */
  lemma TriggerControlsWellFormed()
    ensures WellFormedFrom(TriggerControls, 0)
  {
    AutoTriggerWellFormed();
    AssociatedControlWellFormed();
    IntensityWellFormed();
    WellFormedFromAppend(AutoTrigger, AssociatedControl, 0);
    WellFormedFromAppend(AutoTrigger + AssociatedControl, Intensity, 0);
  }

  /** The fields cpp:114-132 declares, and the globals in effect after it. */
  lemma PlaybackControlsLayout()
    ensures Fields(PlaybackControls, Globals(2, 8, 1, 0, 127)) == [
        Field(OutputReport, 2, 8, 1, 0, 127),
        Field(FeatureReport, 2, 8, 1, 0, 127),
        Field(OutputReport, 2, 8, 1, 0, 127),
        Field(FeatureReport, 2, 8, 1, 0, 127),
        Field(FeatureReport, 2, 16, 1, 0, 32767),
        Field(OutputReport, 2, 16, 1, 0, 32767)]
    ensures GlobalsAfter(PlaybackControls, Globals(2, 8, 1, 0, 127)) == Globals(2, 16, 1, 0, 32767)
  {
    RepeatCountLayout();
    RetriggerPeriodLayout();
    WaveformCutoffTimeLayout();
    ManualTriggerLayout();
    FieldsAppend(RepeatCount, RetriggerPeriod, Globals(2, 8, 1, 0, 127));
    FieldsAppend(RepeatCount + RetriggerPeriod, WaveformCutoffTime, Globals(2, 8, 1, 0, 127));
    FieldsAppend(RepeatCount + RetriggerPeriod + WaveformCutoffTime, ManualTrigger, Globals(2, 8, 1, 0, 127));
  }

  /** Every item of cpp:114-132 is a framed short item of a type and tag the standard defines. */
  lemma PlaybackControlsWellFormed()
    ensures WellFormedFrom(PlaybackControls, 0)
  {
    RepeatCountWellFormed();
    RetriggerPeriodWellFormed();
    WaveformCutoffTimeWellFormed();
    ManualTriggerWellFormed();
    WellFormedFromAppend(RepeatCount, RetriggerPeriod, 0);
    WellFormedFromAppend(RepeatCount + RetriggerPeriod, WaveformCutoffTime, 0);
    WellFormedFromAppend(RepeatCount + RetriggerPeriod + WaveformCutoffTime, ManualTrigger, 0);
  }

  /** The fields cpp:54-132 declares, and the globals in effect after it. */
  lemma HapticFeedbackRegionLayout()
    ensures Fields(HapticFeedbackRegion, Globals(1, 15, 1, -3600, 3600)) == [
        Field(FeatureReport, 2, 8, 1, 3, 3),
        Field(FeatureReport, 2, 8, 1, 4, 4),
        Field(FeatureReport, 2, 8, 2, 0, 4095),
        Field(FeatureReport, 2, 16, 1, 0x1000, 0x1004),
        Field(FeatureReport, 2, 32, 1, 0x10037, 0x10037),
        Field(OutputReport, 2, 8, 1, 0, 127),
        Field(FeatureReport, 2, 8, 1, 0, 127),
        Field(OutputReport, 2, 8, 1, 0, 127),
        Field(FeatureReport, 2, 8, 1, 0, 127),
        Field(OutputReport, 2, 8, 1, 0, 127),
        Field(FeatureReport, 2, 8, 1, 0, 127),
        Field(FeatureReport, 2, 16, 1, 0, 32767),
        Field(OutputReport, 2, 16, 1, 0, 32767)]
    ensures GlobalsAfter(HapticFeedbackRegion, Globals(1, 15, 1, -3600, 3600)) == Globals(2, 16, 1, 0, 32767)
  {
    HapticListsLayout();
    TriggerControlsLayout();
    PlaybackControlsLayout();
    FieldsAppend(HapticLists, TriggerControls, Globals(1, 15, 1, -3600, 3600));
    FieldsAppend(HapticLists + TriggerControls, PlaybackControls, Globals(1, 15, 1, -3600, 3600));
  }

  /** Every item of cpp:54-132 is a framed short item of a type and tag the standard defines. */
  lemma HapticFeedbackRegionWellFormed()
    ensures WellFormedFrom(HapticFeedbackRegion, 0)
  {
    HapticListsWellFormed();
    TriggerControlsWellFormed();
    PlaybackControlsWellFormed();
    WellFormedFromAppend(HapticLists, TriggerControls, 0);
    WellFormedFromAppend(HapticLists + TriggerControls, PlaybackControls, 0);
  }

  /** The fields the whole report map declares, in order, and the globals in effect at its end. */
  lemma DescriptorLayout()
    ensures Fields(Descriptor, NoGlobals) == [
        Field(InputReport, 1, 1, 1, 0, 1),
        Field(InputReport, 1, 15, 1, -3600, 3600),
        Field(FeatureReport, 2, 8, 1, 3, 3),
        Field(FeatureReport, 2, 8, 1, 4, 4),
        Field(FeatureReport, 2, 8, 2, 0, 4095),
        Field(FeatureReport, 2, 16, 1, 0x1000, 0x1004),
        Field(FeatureReport, 2, 32, 1, 0x10037, 0x10037),
        Field(OutputReport, 2, 8, 1, 0, 127),
        Field(FeatureReport, 2, 8, 1, 0, 127),
        Field(OutputReport, 2, 8, 1, 0, 127),
        Field(FeatureReport, 2, 8, 1, 0, 127),
        Field(OutputReport, 2, 8, 1, 0, 127),
        Field(FeatureReport, 2, 8, 1, 0, 127),
        Field(FeatureReport, 2, 16, 1, 0, 32767),
        Field(OutputReport, 2, 16, 1, 0, 32767)]
    ensures GlobalsAfter(Descriptor, NoGlobals) == Globals(2, 16, 1, 0, 32767)
  {
    RadialControllerRegionLayout();
    HapticFeedbackRegionLayout();
    FieldsAppend(RadialControllerRegion, HapticFeedbackRegion, NoGlobals);
  }

  /** Every item of the report map is a framed short item of a type and tag the standard defines. */
  lemma DescriptorWellFormed()
    ensures WellFormedFrom(Descriptor, 0)
  {
    RadialControllerRegionWellFormed();
    HapticFeedbackRegionWellFormed();
    WellFormedFromAppend(RadialControllerRegion, HapticFeedbackRegion, 0);
  }

  // ---------------------------------------------------------------------------
  // What the report map declares

  /** The report map is a run of well-formed short items and walks back out of its bytes. */
  lemma ReportMapParses()
    ensures AllWellFormed(Descriptor)
    ensures Parse(CorrectedReportMap) == Some(Descriptor)
  {
    DescriptorWellFormed();
    WellFormedFromAll(Descriptor, 0);
    WellFormedFramed(Descriptor);
    ParseFlatten(Descriptor);
  }

  /** The descriptor's fields of one report and kind, gathered from the dial's section and the three haptic groups. */
  lemma DescriptorReports(kind: ReportKind, id: nat)
    ensures Select(Fields(Descriptor, NoGlobals), kind, id)
      == Select([Field(InputReport, 1, 1, 1, 0, 1), Field(InputReport, 1, 15, 1, -3600, 3600)], kind, id)
        + (Select([Field(FeatureReport, 2, 8, 1, 3, 3), Field(FeatureReport, 2, 8, 1, 4, 4), Field(FeatureReport, 2, 8, 2, 0, 4095)], kind, id)
        + (Select([Field(FeatureReport, 2, 16, 1, 0x1000, 0x1004), Field(FeatureReport, 2, 32, 1, 0x10037, 0x10037), Field(OutputReport, 2, 8, 1, 0, 127), Field(FeatureReport, 2, 8, 1, 0, 127)], kind, id)
        + Select([Field(OutputReport, 2, 8, 1, 0, 127), Field(FeatureReport, 2, 8, 1, 0, 127), Field(OutputReport, 2, 8, 1, 0, 127), Field(FeatureReport, 2, 8, 1, 0, 127), Field(FeatureReport, 2, 16, 1, 0, 32767), Field(OutputReport, 2, 16, 1, 0, 32767)], kind, id)))
  {
    var g0 := Globals(1, 15, 1, -3600, 3600);
    var g1 := Globals(2, 8, 2, 0, 4095);
    var g2 := Globals(2, 8, 1, 0, 127);
    var radial := Fields(RadialControllerRegion, NoGlobals);
    var lists := Fields(HapticLists, g0);
    var triggers := Fields(TriggerControls, g1);
    var playback := Fields(PlaybackControls, g2);
    RadialControllerRegionLayout();
    HapticListsLayout();
    TriggerControlsLayout();
    PlaybackControlsLayout();
    FieldsAppend(RadialControllerRegion, HapticFeedbackRegion, NoGlobals);
    assert HapticFeedbackRegion == HapticLists + (TriggerControls + PlaybackControls);
    FieldsAppend(HapticLists, TriggerControls + PlaybackControls, g0);
    FieldsAppend(TriggerControls, PlaybackControls, g1);
    SelectAppend(radial, lists + (triggers + playback), kind, id);
    SelectAppend(lists, triggers + playback, kind, id);
    SelectAppend(triggers, playback, kind, id);
  }

  /**
   * Report 1 carries exactly the two bit-fields of the dial report, least
   * significant first: the button (1 bit, 0 to 1), then the rotation (15 bits,
   * -3600 to 3600): 16 bits, the two bytes `sendReport` hands over. It has no
   * output and no feature fields.
   */
  lemma RadialControllerReport()
    ensures Select(Fields(Descriptor, NoGlobals), InputReport, RadialControllerReportId) == [
      Field(InputReport, RadialControllerReportId, 1, 1, 0, 1),
      Field(InputReport, RadialControllerReportId, 15, 1, DialReport.MinRotation, DialReport.MaxRotation)]
    ensures Bits(Select(Fields(Descriptor, NoGlobals), InputReport, RadialControllerReportId)) == 8 * DialReport.ReportLength
    ensures Select(Fields(Descriptor, NoGlobals), OutputReport, RadialControllerReportId) == []
    ensures Select(Fields(Descriptor, NoGlobals), FeatureReport, RadialControllerReportId) == []
  {
    DescriptorReports(InputReport, 1);
    DescriptorReports(OutputReport, 1);
    DescriptorReports(FeatureReport, 1);
    assert Bits([Field(InputReport, 1, 1, 1, 0, 1), Field(InputReport, 1, 15, 1, -3600, 3600)]) == 16;
  }

  /**
   * Report 2 is the haptic feedback collection: it has no input fields, its
   * output report (the waveform to play, its intensity, repeat count,
   * retrigger period and cutoff time) is 40 bits and its feature report 120.
   */
  lemma HapticFeedbackReport()
    ensures Select(Fields(Descriptor, NoGlobals), InputReport, HapticFeedbackReportId) == []
    ensures Bits(Select(Fields(Descriptor, NoGlobals), OutputReport, HapticFeedbackReportId)) == 40
    ensures Bits(Select(Fields(Descriptor, NoGlobals), FeatureReport, HapticFeedbackReportId)) == 120
  {
    DescriptorReports(InputReport, 2);
    DescriptorReports(OutputReport, 2);
    DescriptorReports(FeatureReport, 2);
    var outputs := [Field(OutputReport, 2, 8, 1, 0, 127), Field(OutputReport, 2, 8, 1, 0, 127), Field(OutputReport, 2, 8, 1, 0, 127), Field(OutputReport, 2, 16, 1, 0, 32767)];
    var features := [Field(FeatureReport, 2, 8, 1, 3, 3), Field(FeatureReport, 2, 8, 1, 4, 4), Field(FeatureReport, 2, 8, 2, 0, 4095), Field(FeatureReport, 2, 16, 1, 0x1000, 0x1004), Field(FeatureReport, 2, 32, 1, 0x10037, 0x10037), Field(FeatureReport, 2, 8, 1, 0, 127), Field(FeatureReport, 2, 8, 1, 0, 127), Field(FeatureReport, 2, 8, 1, 0, 127), Field(FeatureReport, 2, 16, 1, 0, 32767)];
    assert Select(Fields(Descriptor, NoGlobals), OutputReport, 2) == outputs;
    assert Select(Fields(Descriptor, NoGlobals), FeatureReport, 2) == features;
    assert Bits(outputs) == 40;
    assert Bits(features) == 120;
  }

  // ---------------------------------------------------------------------------
  // The report map as the source writes it, where it differs from the above

  /** The rotation's bounds as written (cpp:47-52): PHYSICAL_MAXIMUM(1) announces one data byte but two follow. */
  const DialBoundsAsWritten: seq<uint8> := [
    PhysicalMinimum(2), 0xf0, 0xf1,
    PhysicalMaximum(1), 0x10, 0x0e,
    LogicalMinimum(2), 0xf0, 0xf1,
    LogicalMaximum(2), 0x10, 0x0e,
    HidInput(1), 0x06,
    EndCollection(0)]

  /** What a host reads from those bytes: from the second data byte on, the walk is out of step. */
  const DialBoundsMisread: seq<Item> := [
    Item(PhysicalMinimum(2), [0xf0, 0xf1]),
    Item(PhysicalMaximum(1), [0x10]),
    Item(0x0e, [0x16, 0xf0]),
    Item(0xf1, [0x26]),
    Item(0x10, []),
    Item(0x0e, [0x81, 0x06]),
    Item(EndCollection(0), [])]

  lemma DialBoundsAsWrittenParse()
    ensures Parse(DialBoundsAsWritten) == Some(DialBoundsMisread)
  {
    assert Flatten(DialBoundsMisread) == DialBoundsAsWritten;
    assert AllFramed(DialBoundsMisread);
    ParseFlatten(DialBoundsMisread);
  }

  /**
   * Four of the seven misread items, those at indices 2 to 5, are of the
   * reserved type or carry a reserved main tag; the other three are standard.
   */
  lemma DialBoundsMisreadIllFormed()
    ensures forall i :: 0 <= i < |DialBoundsMisread| ==> (!WellFormed(DialBoundsMisread[i]) <==> 2 <= i <= 5)
    ensures |set i | 0 <= i < |DialBoundsMisread| && !WellFormed(DialBoundsMisread[i])| == 4
  {
    assert WellFormed(DialBoundsMisread[0]) && WellFormed(DialBoundsMisread[1]) && WellFormed(DialBoundsMisread[6]);
    assert !WellFormed(DialBoundsMisread[2]) && !WellFormed(DialBoundsMisread[3]);
    assert !WellFormed(DialBoundsMisread[4]) && !WellFormed(DialBoundsMisread[5]);
    assert (set i | 0 <= i < |DialBoundsMisread| && !WellFormed(DialBoundsMisread[i])) == {2, 3, 4, 5};
  }

  /** None of the misread items declares a field or changes a global that shapes one. */
  lemma DialBoundsMisreadLayout()
    ensures Fields(DialBoundsMisread, Globals(1, 15, 1, 0, 1)) == []
    ensures GlobalsAfter(DialBoundsMisread, Globals(1, 15, 1, 0, 1)) == Globals(1, 15, 1, 0, 1)
  {
    var g := Globals(1, 15, 1, 0, 1);
    var m := DialBoundsMisread;
    ItemStep(m, 6, Item(EndCollection(0), []), g, g, []);
    ItemStep(m, 5, Item(0x0e, [0x81, 0x06]), g, g, []);
    ItemStep(m, 4, Item(0x10, []), g, g, []);
    ItemStep(m, 3, Item(0xf1, [0x26]), g, g, []);
    ItemStep(m, 2, Item(0x0e, [0x16, 0xf0]), g, g, []);
    ItemStep(m, 1, Item(PhysicalMaximum(1), [0x10]), g, g, []);
    ItemStep(m, 0, Item(PhysicalMinimum(2), [0xf0, 0xf1]), g, g, []);
  }

  /**
   * Read as written, the radial controller collection falls out of step at
   * the rotation's bounds: the walk takes 0x0e for an item of the reserved
   * type, and the logical bounds and the 15-bit input item are swallowed as
   * data of items no host knows.
   */
  lemma DialBoundsAsWrittenMisread()
    ensures Parse(Flatten(DialHeader) + DialBoundsAsWritten) == Some(DialHeader + DialBoundsMisread)
    ensures !AllWellFormed(DialHeader + DialBoundsMisread)
  {
    assert AllFramed(DialHeader) by {
      DialHeaderWellFormed();
      WellFormedFromAll(DialHeader, 0);
      WellFormedFramed(DialHeader);
    }
    DialBoundsAsWrittenParse();
    ParseFlattenThen(DialHeader, DialBoundsAsWritten);
    DialBoundsMisreadIllFormed();
    assert (DialHeader + DialBoundsMisread)[|DialHeader| + 2] == DialBoundsMisread[2];
  }

  /** So read, report 1 declares the 1-bit button only, not the 16 bits the dial sends. */
  lemma DialBoundsMisreadReport()
    ensures Select(Fields(DialHeader + DialBoundsMisread, NoGlobals), InputReport, RadialControllerReportId)
      == [Field(InputReport, RadialControllerReportId, 1, 1, 0, 1)]
    ensures Bits(Select(Fields(DialHeader + DialBoundsMisread, NoGlobals), InputReport, RadialControllerReportId))
      < 8 * DialReport.ReportLength
  {
    var g := Globals(1, 15, 1, 0, 1);
    DialBoundsMisreadLayout();
    DialHeaderLayout();
    FieldsAppend(DialHeader, DialBoundsMisread, NoGlobals);
    assert Select([Field(InputReport, 1, 1, 1, 0, 1)], InputReport, 1) == [Field(InputReport, 1, 1, 1, 0, 1)];
    assert Bits([Field(InputReport, 1, 1, 1, 0, 1)]) == 1;
  }


  /** Ordinal 3's bounds as written (cpp:68-70): PHYSICAL_MINIMUM(1) and PHYSICAL_MAXIMUM(1) each announce one data byte but two follow. */
  const Ordinal3BoundsAsWritten: seq<uint8> := [
    PhysicalMinimum(1), 0x03, 0x10,
    PhysicalMaximum(1), 0x03, 0x10,
    Feature(1), 0x03]

  /** What a host reads from those bytes: each bound is 3, and each stray 0x10 is an item with a reserved main tag. */
  const Ordinal3BoundsMisread: seq<Item> := [
    Item(PhysicalMinimum(1), [0x03]),
    Item(0x10, []),
    Item(PhysicalMaximum(1), [0x03]),
    Item(0x10, []),
    Item(Feature(1), [0x03])]

  /** Ordinal 4's bounds as written (cpp:74-76), with the same two oversized items. */
  const Ordinal4BoundsAsWritten: seq<uint8> := [
    PhysicalMinimum(1), 0x04, 0x10,
    PhysicalMaximum(1), 0x04, 0x10,
    Feature(1), 0x03]

  const Ordinal4BoundsMisread: seq<Item> := [
    Item(PhysicalMinimum(1), [0x04]),
    Item(0x10, []),
    Item(PhysicalMaximum(1), [0x04]),
    Item(0x10, []),
    Item(Feature(1), [0x03])]

  lemma Ordinal3BoundsAsWrittenParse()
    ensures Parse(Ordinal3BoundsAsWritten) == Some(Ordinal3BoundsMisread)
  {
    assert Flatten(Ordinal3BoundsMisread) == Ordinal3BoundsAsWritten;
    assert AllFramed(Ordinal3BoundsMisread);
    ParseFlatten(Ordinal3BoundsMisread);
  }

  lemma Ordinal4BoundsAsWrittenParse()
    ensures Parse(Ordinal4BoundsAsWritten) == Some(Ordinal4BoundsMisread)
  {
    assert Flatten(Ordinal4BoundsMisread) == Ordinal4BoundsAsWritten;
    assert AllFramed(Ordinal4BoundsMisread);
    ParseFlatten(Ordinal4BoundsMisread);
  }

  /**
   * Read as written, the bounds of ordinals 3 and 4 each yield two items
   * with a reserved main tag, two items more than the corrected bounds, and
   * read as 3 and 4 where the corrected items carry 0x1003 and 0x1004.
   */
  lemma OrdinalBoundsMisread()
    ensures |Ordinal3BoundsMisread| == |Ordinal3[6..]| + 2
    ensures !WellFormed(Ordinal3BoundsMisread[1]) && !WellFormed(Ordinal3BoundsMisread[3])
    ensures SignedLE(Ordinal3BoundsMisread[0].data) == 3 && SignedLE(Ordinal3BoundsMisread[2].data) == 3
    ensures SignedLE(Ordinal3[6].data) == 0x1003 && SignedLE(Ordinal3[7].data) == 0x1003
    ensures |Ordinal4BoundsMisread| == |Ordinal4[3..6]| + 2
    ensures !WellFormed(Ordinal4BoundsMisread[1]) && !WellFormed(Ordinal4BoundsMisread[3])
    ensures SignedLE(Ordinal4BoundsMisread[0].data) == 4 && SignedLE(Ordinal4BoundsMisread[2].data) == 4
    ensures SignedLE(Ordinal4[3].data) == 0x1004 && SignedLE(Ordinal4[4].data) == 0x1004
  {
  }

  /**
   * The bytes of the report map as the source writes them (cpp:23-133): the
   * corrected items, except that the bounds of the dial and of ordinals 3 and
   * 4 keep the bytes written in the source.
   */
  const ReportMapAsWritten: seq<uint8> :=
    Flatten(DialHeader) + DialBoundsAsWritten
    + Flatten(HapticFeedback + WaveformList + Ordinal3[..6]) + Ordinal3BoundsAsWritten
    + Flatten(Ordinal4[..3]) + Ordinal4BoundsAsWritten
    + Flatten(Ordinal4[6..] + DurationList + TriggerControls + PlaybackControls)

  /** The dial's bounds as written differ from the corrected ones in the size code of PHYSICAL_MAXIMUM only. */
  lemma DialBoundsCorrection()
    ensures |Flatten(DialBounds)| == 15
    ensures DialBoundsAsWritten == Flatten(DialBounds)[3 := PhysicalMaximum(1)]
  {
  }

  /** Ordinal 3's bounds as written differ from the corrected ones in the two size codes only. */
  lemma Ordinal3BoundsCorrection()
    ensures |Flatten(Ordinal3[6..])| == 8
    ensures Ordinal3BoundsAsWritten == Flatten(Ordinal3[6..])[0 := PhysicalMinimum(1)][3 := PhysicalMaximum(1)]
  {
    var bounds := [Item(PhysicalMinimum(2), [0x03, 0x10]), Item(PhysicalMaximum(2), [0x03, 0x10]), Item(Feature(1), [0x03])];
    assert Ordinal3[6..] == bounds;
    assert Flatten(bounds) == [PhysicalMinimum(2), 0x03, 0x10, PhysicalMaximum(2), 0x03, 0x10, Feature(1), 0x03];
  }

  /** Ordinal 4's bounds as written differ from the corrected ones in the two size codes only. */
  lemma Ordinal4BoundsCorrection()
    ensures |Flatten(Ordinal4[3..6])| == 8
    ensures Ordinal4BoundsAsWritten == Flatten(Ordinal4[3..6])[0 := PhysicalMinimum(1)][3 := PhysicalMaximum(1)]
  {
    var bounds := [Item(PhysicalMinimum(2), [0x04, 0x10]), Item(PhysicalMaximum(2), [0x04, 0x10]), Item(Feature(1), [0x03])];
    assert Ordinal4[3..6] == bounds;
    assert Flatten(bounds) == [PhysicalMinimum(2), 0x04, 0x10, PhysicalMaximum(2), 0x04, 0x10, Feature(1), 0x03];
  }

  /** The lengths of the runs of size-1 items between the patched bounds. */
  lemma SegmentLengths()
    ensures |Flatten(DialHeader)| == 40
    ensures |Flatten(HapticFeedback + WaveformList + Ordinal3[..6])| == 26
    ensures |Flatten(Ordinal4[..3])| == 6
  {
    FlattenUniformLength(DialHeader, 1);
    FlattenUniformLength(HapticFeedback + WaveformList + Ordinal3[..6], 1);
    FlattenUniformLength(Ordinal4[..3], 1);
  }

  /** The bytes of seven runs of items are the runs' bytes one after the other. */
  lemma FlattenSeven(a: seq<Item>, b: seq<Item>, c: seq<Item>, d: seq<Item>, e: seq<Item>, f: seq<Item>, g: seq<Item>)
    ensures Flatten(a + b + c + d + e + f + g)
      == Flatten(a) + Flatten(b) + Flatten(c) + Flatten(d) + Flatten(e) + Flatten(f) + Flatten(g)
  {
    FlattenAppend(a, b);
    FlattenAppend(a + b, c);
    FlattenAppend(a + b + c, d);
    FlattenAppend(a + b + c + d, e);
    FlattenAppend(a + b + c + d + e, f);
    FlattenAppend(a + b + c + d + e + f, g);
  }

  /** The report map's composition, regrouped at the bounds of the dial and of ordinals 3 and 4. */
  lemma RegroupDescriptor(header: seq<Item>, bounds: seq<Item>, feedback: seq<Item>, list: seq<Item>,
                          ordinal3: seq<Item>, ordinal4: seq<Item>, durations: seq<Item>, triggers: seq<Item>, playback: seq<Item>)
    requires |ordinal3| >= 6 && |ordinal4| >= 6
    ensures (header + bounds) + (((feedback + list + ordinal3 + ordinal4) + durations) + triggers + playback)
      == header + bounds + (feedback + list + ordinal3[..6]) + ordinal3[6..]
       + ordinal4[..3] + ordinal4[3..6] + (ordinal4[6..] + durations + triggers + playback)
  {
    assert ordinal3 == ordinal3[..6] + ordinal3[6..];
    assert ordinal4 == ordinal4[..3] + ordinal4[3..6] + ordinal4[6..];
  }

  /** The corrected map, cut where the two maps differ. */
  lemma CorrectedReportMapSegments()
    ensures CorrectedReportMap
      == Flatten(DialHeader) + Flatten(DialBounds)
       + Flatten(HapticFeedback + WaveformList + Ordinal3[..6]) + Flatten(Ordinal3[6..])
       + Flatten(Ordinal4[..3]) + Flatten(Ordinal4[3..6])
       + Flatten(Ordinal4[6..] + DurationList + TriggerControls + PlaybackControls)
  {
    RegroupDescriptor(DialHeader, DialBounds, HapticFeedback, WaveformList, Ordinal3, Ordinal4,
                      DurationList, TriggerControls, PlaybackControls);
    FlattenSeven(DialHeader, DialBounds, HapticFeedback + WaveformList + Ordinal3[..6], Ordinal3[6..],
                 Ordinal4[..3], Ordinal4[3..6], Ordinal4[6..] + DurationList + TriggerControls + PlaybackControls);
  }

  /** Seven runs of bytes in which the second, fourth and sixth are patched, at the offsets of the report map. */
  lemma PatchedSegments(s0: seq<uint8>, c1: seq<uint8>, s1: seq<uint8>, c2: seq<uint8>, s2: seq<uint8>, c3: seq<uint8>, s3: seq<uint8>,
                        w1: seq<uint8>, w2: seq<uint8>, w3: seq<uint8>, lo: uint8, hi: uint8)
    requires |s0| == 40 && |c1| == 15 && |s1| == 26 && |c2| == 8 && |s2| == 6 && |c3| == 8
    requires w1 == c1[3 := hi] && w2 == c2[0 := lo][3 := hi] && w3 == c3[0 := lo][3 := hi]
    ensures s0 + w1 + s1 + w2 + s2 + w3 + s3
      == (s0 + c1 + s1 + c2 + s2 + c3 + s3)[43 := hi][81 := lo][84 := hi][95 := lo][98 := hi]
  {
  }

  /**
   * The bytes the source writes are the corrected map with five prefix bytes
   * changed: the size codes of the dial's PHYSICAL_MAXIMUM (cpp:48) and of
   * ordinal 3's and ordinal 4's PHYSICAL_MINIMUM and PHYSICAL_MAXIMUM
   * (cpp:68-69, 74-75), each 1 where the corrected map has 2.
   */
  lemma ReportMapAsWrittenDiffers()
    ensures 98 < |ReportMapAsWritten| == |CorrectedReportMap|
    ensures CorrectedReportMap[43] == PhysicalMaximum(2)
    ensures CorrectedReportMap[81] == PhysicalMinimum(2) && CorrectedReportMap[84] == PhysicalMaximum(2)
    ensures CorrectedReportMap[95] == PhysicalMinimum(2) && CorrectedReportMap[98] == PhysicalMaximum(2)
    ensures ReportMapAsWritten == CorrectedReportMap[43 := PhysicalMaximum(1)]
      [81 := PhysicalMinimum(1)][84 := PhysicalMaximum(1)]
      [95 := PhysicalMinimum(1)][98 := PhysicalMaximum(1)]
  {
    CorrectedReportMapSegments();
    SegmentLengths();
    DialBoundsCorrection();
    Ordinal3BoundsCorrection();
    Ordinal4BoundsCorrection();
    PatchedSegments(Flatten(DialHeader), Flatten(DialBounds),
      Flatten(HapticFeedback + WaveformList + Ordinal3[..6]), Flatten(Ordinal3[6..]),
      Flatten(Ordinal4[..3]), Flatten(Ordinal4[3..6]),
      Flatten(Ordinal4[6..] + DurationList + TriggerControls + PlaybackControls),
      DialBoundsAsWritten, Ordinal3BoundsAsWritten, Ordinal4BoundsAsWritten,
      PhysicalMinimum(1), PhysicalMaximum(1));
  }
}
