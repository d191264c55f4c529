/**
 * How `main` (cargo-hf2/src/main.rs) picks the device to flash. With both
 * `--vid` and `--pid` it opens that pair directly and never looks at the
 * vendor map; otherwise it walks the enumerated HID devices in order and
 * takes the first one whose vendor id is a key of the vendor map, whose
 * product id is in that key's set, and which opens. Not finding one panics.
 */
module DeviceSelector {
  import opened Wrappers
  import opened Ints

  /** One entry of `HidApi::device_list`, with whether opening it succeeds. */
  datatype DeviceInfo = DeviceInfo(vid: u16, pid: u16, opens: bool)

  /** `hf2::utils::vendor_map`: vendor id to the product ids known for it. */
  type VendorMap = map<u16, set<u16>>

  /** The panic "Are you sure device is plugged in and in bootloader mode?". */
  datatype DeviceNotFound = DeviceNotFound

  /** The vendor map lists this device's vid/pid pair. */
  predicate Known(d: DeviceInfo, vendor: VendorMap) {
    d.vid in vendor && d.pid in vendor[d.vid]
  }

  /** The scan stops at this device. */
  predicate Qualifies(d: DeviceInfo, vendor: VendorMap) {
    Known(d, vendor) && d.opens
  }

  /** Index of the first device the scan accepts. */
  function FirstQualifying(devices: seq<DeviceInfo>, vendor: VendorMap): (r: Option<nat>)
    ensures r.Some? ==> r.value < |devices| && Qualifies(devices[r.value], vendor)
    ensures r.Some? ==> forall j :: 0 <= j < r.value ==> !Qualifies(devices[j], vendor)
    ensures r.None? ==> forall j :: 0 <= j < |devices| ==> !Qualifies(devices[j], vendor)
    decreases |devices|
  {
    if |devices| == 0 then None
    else if Qualifies(devices[0], vendor) then Some(0)
    else match FirstQualifying(devices[1..], vendor)
      case None => None
      case Some(k) => Some(k + 1)
  }

  /** The enumeration loop with its `break`, as the program runs it. */
  method ScanForDevice(devices: seq<DeviceInfo>, vendor: VendorMap) returns (device: Option<nat>)
    ensures device == FirstQualifying(devices, vendor)
  {
    device := None;
    var i := 0;
    while i < |devices|
      invariant 0 <= i <= |devices|
      invariant forall j :: 0 <= j < i ==> !Qualifies(devices[j], vendor)
    {
      var info := devices[i];
      if info.vid in vendor {
        var products := vendor[info.vid];
        if info.pid in products {
          if info.opens {
            device := Some(i);
            break;
          }
        }
      }
      i := i + 1;
    }
  }

  /**
   * `HidApi::open(vid, pid)`: the first enumerated device with exactly that
   * pair is the one opened; the call fails when there is none or it does
   * not open.
   */
  function OpenById(vid: u16, pid: u16, devices: seq<DeviceInfo>): (r: Option<nat>)
    ensures r.Some? ==> r.value < |devices| && devices[r.value].vid == vid && devices[r.value].pid == pid
    ensures r.Some? ==> devices[r.value].opens
    ensures r.Some? ==> forall j :: 0 <= j < r.value ==> !(devices[j].vid == vid && devices[j].pid == pid)
    ensures r.None? ==> forall j :: 0 <= j < |devices| && devices[j].vid == vid && devices[j].pid == pid ==>
      exists i :: 0 <= i <= j && devices[i].vid == vid && devices[i].pid == pid && !devices[i].opens
    decreases |devices|
  {
    if |devices| == 0 then None
    else if devices[0].vid == vid && devices[0].pid == pid then
      (if devices[0].opens then Some(0) else None)
    else match OpenById(vid, pid, devices[1..])
      case None => None
      case Some(k) => Some(k + 1)
  }

  /** The `if let (Some(v), Some(p))` choice between the two modes and the `expect` after each. */
  function SelectDevice(vid: Option<u16>, pid: Option<u16>, devices: seq<DeviceInfo>, vendor: VendorMap)
    : (r: Result<nat, DeviceNotFound>)
    ensures r.Ok? ==> r.value < |devices| && devices[r.value].opens
  {
    var found :=
      if vid.Some? && pid.Some? then OpenById(vid.value, pid.value, devices)
      else FirstQualifying(devices, vendor);
    match found
    case None => Err(DeviceNotFound)
    case Some(k) => Ok(k)
  }

  /**
   * Explicit mode never consults the vendor map. It takes the first device
   * with exactly the requested pair, whether or not the map knows it, and
   * fails if there is none or that one does not open.
   */
  lemma ExplicitIgnoresVendorMap(vid: u16, pid: u16, devices: seq<DeviceInfo>, vendor: VendorMap, other: VendorMap)
    ensures SelectDevice(Some(vid), Some(pid), devices, vendor) == SelectDevice(Some(vid), Some(pid), devices, other)
    ensures SelectDevice(Some(vid), Some(pid), devices, vendor).Ok? ==>
      var d := devices[SelectDevice(Some(vid), Some(pid), devices, vendor).value];
      d.vid == vid && d.pid == pid && d.opens
    ensures (forall j :: 0 <= j < |devices| ==> !(devices[j].vid == vid && devices[j].pid == pid))
      ==> SelectDevice(Some(vid), Some(pid), devices, vendor) == Err(DeviceNotFound)
    ensures forall k ::
      (0 <= k < |devices| && devices[k].vid == vid && devices[k].pid == pid &&
       (forall j :: 0 <= j < k ==> !(devices[j].vid == vid && devices[j].pid == pid)))
      ==> SelectDevice(Some(vid), Some(pid), devices, vendor) == (if devices[k].opens then Ok(k) else Err(DeviceNotFound))
  {
  }

  /**
   * Scan mode (either id missing) returns the first device in enumeration
   * order that the vendor map knows and that opens, and fails exactly when
   * there is none.
   */
  lemma ScanSelectsFirstQualifying(vid: Option<u16>, pid: Option<u16>, devices: seq<DeviceInfo>, vendor: VendorMap)
    requires vid.None? || pid.None?
    ensures SelectDevice(vid, pid, devices, vendor).Err? <==>
      forall j :: 0 <= j < |devices| ==> !Qualifies(devices[j], vendor)
    ensures SelectDevice(vid, pid, devices, vendor).Ok? ==>
      var k := SelectDevice(vid, pid, devices, vendor).value;
      k < |devices| && Qualifies(devices[k], vendor) &&
      forall j :: 0 <= j < k ==> !Qualifies(devices[j], vendor)
  {
  }

  /** Devices after the chosen one are never examined: replacing them does not change the choice. */
  lemma {:induction false} ScanStopsAtFirstMatch(devices: seq<DeviceInfo>, vendor: VendorMap, later: seq<DeviceInfo>)
    requires FirstQualifying(devices, vendor).Some?
    ensures var k := FirstQualifying(devices, vendor).value;
      FirstQualifying(devices[..k + 1] + later, vendor) == Some(k)
    decreases |devices|
  {
    var k := FirstQualifying(devices, vendor).value;
    var changed := devices[..k + 1] + later;
    if k > 0 {
      var rest := devices[1..];
      ScanStopsAtFirstMatch(rest, vendor, later);
      assert changed[0] == devices[0];
      assert changed[1..] == rest[..k] + later;
    }
  }

  /**
   * A known device that does not open is skipped: the scan goes on to the
   * next one exactly as if the device were absent.
   */
  lemma UnopenableDeviceSkipped(d: DeviceInfo, rest: seq<DeviceInfo>, vendor: VendorMap)
    requires Known(d, vendor) && !d.opens
    ensures FirstQualifying([d] + rest, vendor) ==
      match FirstQualifying(rest, vendor)
      case None => None
      case Some(k) => Some(k + 1)
  {
    assert ([d] + rest)[1..] == rest;
  }

  /**
   * With vendor map {0x1234: {0x5678, 0x9abc}} and devices (0x1234, 0x0000)
   * then (0x1234, 0x5678), only the second opening, the scan picks the second.
   */
  lemma ScanExample()
    ensures SelectDevice(None, None,
      [DeviceInfo(0x1234, 0x0000, false), DeviceInfo(0x1234, 0x5678, true)],
      map[0x1234 := {0x5678, 0x9abc}]) == Ok(1)
  {
    var devices := [DeviceInfo(0x1234, 0x0000, false), DeviceInfo(0x1234, 0x5678, true)];
    assert devices[1..] == [DeviceInfo(0x1234, 0x5678, true)];
  }

  /** With an explicit pair that no connected device has, selection fails without the map. */
  lemma ExplicitExample(devices: seq<DeviceInfo>, vendor: VendorMap)
    requires forall j :: 0 <= j < |devices| ==> devices[j].vid != 0x2e8a
    ensures SelectDevice(Some(0x2e8a), Some(0x000c), devices, vendor) == Err(DeviceNotFound)
  {
  }
}
