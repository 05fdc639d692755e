/** The hot-plug event a libusb hot-plug notification reports. */
module Events {
  import opened Base
  import opened Libusb

  datatype HotPlugEvent = Arrived | Left

  /** `HotPlugEvent::from_i32`: decode a libusb event code.  The arrival code
      is tested first, then the departure code; any other code is not an
      event. */
  function FromI32(value: i32): (r: Option<HotPlugEvent>)
    ensures r == Some(Arrived) <==> value == LIBUSB_HOTPLUG_EVENT_DEVICE_ARRIVED
    ensures r == Some(Left) <==> value == LIBUSB_HOTPLUG_EVENT_DEVICE_LEFT
    ensures r.None? <==>
      value != LIBUSB_HOTPLUG_EVENT_DEVICE_ARRIVED && value != LIBUSB_HOTPLUG_EVENT_DEVICE_LEFT
  {
    if value == LIBUSB_HOTPLUG_EVENT_DEVICE_ARRIVED then Some(Arrived)
    else if value == LIBUSB_HOTPLUG_EVENT_DEVICE_LEFT then Some(Left)
    else None
  }

  /** The libusb code of each event. */
  function Code(e: HotPlugEvent): i32 {
    match e
    case Arrived => LIBUSB_HOTPLUG_EVENT_DEVICE_ARRIVED
    case Left => LIBUSB_HOTPLUG_EVENT_DEVICE_LEFT
  }

  /** Decoding inverts `Code`, and the only codes that decode are the codes
      of events: `FromI32(c) == Some(e)` exactly when `c == Code(e)`. */
  lemma DecodeInvertsCode(c: i32, e: HotPlugEvent)
    ensures FromI32(c) == Some(e) <==> c == Code(e)
  {
  }

  /** Two codes that decode to the same event are the same code. */
  lemma DecodeInjective(a: i32, b: i32)
    requires FromI32(a).Some? && FromI32(a) == FromI32(b)
    ensures a == b
  {
  }

  /** Exactly two codes decode to an event. */
  lemma TwoCodesDecode()
    ensures (set c: i32 | FromI32(c).Some?) == {LIBUSB_HOTPLUG_EVENT_DEVICE_ARRIVED, LIBUSB_HOTPLUG_EVENT_DEVICE_LEFT}
  {
  }
}
