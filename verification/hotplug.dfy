/** The hot-plug filter: five optional match fields, turned into the
    arguments of libusb's hot-plug registration call by its getters. */
module Hotplug {
  import opened Base
  import opened Libusb

  datatype HotplugFilter = HotplugFilter(
    vendor: Option<i32>,
    product: Option<i32>,
    deviceClass: Option<i32>,
    events: Option<i32>,
    enumerate: bool)

  /** `HotplugFilter::new` (and the derived `Default`): nothing selected. */
  function New(): (f: HotplugFilter)
    ensures f.vendor.None? && f.product.None? && f.deviceClass.None? && f.events.None?
    ensures !f.enumerate
  {
    HotplugFilter(None, None, None, None, false)
  }

  /** The vendor id to match, or libusb's "match any" sentinel. */
  function GetVendor(f: HotplugFilter): (r: i32)
    ensures f.vendor.Some? ==> r == f.vendor.value
    ensures f.vendor.None? ==> r == LIBUSB_HOTPLUG_MATCH_ANY
  {
    match f.vendor
    case Some(v) => v
    case None => LIBUSB_HOTPLUG_MATCH_ANY
  }

  /** The product id to match, or libusb's "match any" sentinel. */
  function GetProduct(f: HotplugFilter): (r: i32)
    ensures f.product.Some? ==> r == f.product.value
    ensures f.product.None? ==> r == LIBUSB_HOTPLUG_MATCH_ANY
  {
    match f.product
    case Some(p) => p
    case None => LIBUSB_HOTPLUG_MATCH_ANY
  }

  /** The device class to match, or libusb's "match any" sentinel. */
  function GetClass(f: HotplugFilter): (r: i32)
    ensures f.deviceClass.Some? ==> r == f.deviceClass.value
    ensures f.deviceClass.None? ==> r == LIBUSB_HOTPLUG_MATCH_ANY
  {
    match f.deviceClass
    case Some(c) => c
    case None => LIBUSB_HOTPLUG_MATCH_ANY
  }

  /** The event mask: the selected event, or arrivals and departures both. */
  function GetEvents(f: HotplugFilter): (r: i32)
    ensures f.events.Some? ==> r == f.events.value
    ensures f.events.None? ==>
      && HasFlag(r, LIBUSB_HOTPLUG_EVENT_DEVICE_ARRIVED)
      && HasFlag(r, LIBUSB_HOTPLUG_EVENT_DEVICE_LEFT)
      && WithinFlags(r, LIBUSB_HOTPLUG_EVENT_DEVICE_ARRIVED, LIBUSB_HOTPLUG_EVENT_DEVICE_LEFT)
  {
    match f.events
    case Some(e) => e
    case None => BitOr(LIBUSB_HOTPLUG_EVENT_DEVICE_ARRIVED, LIBUSB_HOTPLUG_EVENT_DEVICE_LEFT)
  }

  /** The registration flags: `LIBUSB_HOTPLUG_ENUMERATE` when enumeration of
      already attached devices was asked for, else none. */
  function GetFlags(f: HotplugFilter): (r: i32)
    ensures f.enumerate <==> r == LIBUSB_HOTPLUG_ENUMERATE
    ensures !f.enumerate <==> r == 0
  {
    if f.enumerate then LIBUSB_HOTPLUG_ENUMERATE else 0
  }

  /** The five settings of a filter. */
  datatype Field = VendorField | ProductField | ClassField | EventsField | EnumerateField

  /** Every getter except the one of `changed` answers on `g` as on `f`. */
  predicate SameExcept(f: HotplugFilter, g: HotplugFilter, changed: Field) {
    && (changed != VendorField ==> g.vendor == f.vendor && GetVendor(g) == GetVendor(f))
    && (changed != ProductField ==> g.product == f.product && GetProduct(g) == GetProduct(f))
    && (changed != ClassField ==> g.deviceClass == f.deviceClass && GetClass(g) == GetClass(f))
    && (changed != EventsField ==> g.events == f.events && GetEvents(g) == GetEvents(f))
    && (changed != EnumerateField ==> g.enumerate == f.enumerate && GetFlags(g) == GetFlags(f))
  }

  /** `HotplugFilter::vendor`: match only this vendor id. */
  function Vendor(f: HotplugFilter, vendor: i32): (g: HotplugFilter)
    ensures GetVendor(g) == vendor && g.vendor.Some?
    ensures SameExcept(f, g, VendorField)
  {
    f.(vendor := Some(vendor))
  }

  /** `HotplugFilter::product`: match only this product id. */
  function Product(f: HotplugFilter, product: i32): (g: HotplugFilter)
    ensures GetProduct(g) == product && g.product.Some?
    ensures SameExcept(f, g, ProductField)
  {
    f.(product := Some(product))
  }

  /** `HotplugFilter::class`: match only this device class. */
  function Class(f: HotplugFilter, deviceClass: i32): (g: HotplugFilter)
    ensures GetClass(g) == deviceClass && g.deviceClass.Some?
    ensures SameExcept(f, g, ClassField)
  {
    f.(deviceClass := Some(deviceClass))
  }

  /** `HotplugFilter::arrived_only`: report arrivals only. */
  function ArrivedOnly(f: HotplugFilter): (g: HotplugFilter)
    ensures GetEvents(g) == LIBUSB_HOTPLUG_EVENT_DEVICE_ARRIVED
    ensures SameExcept(f, g, EventsField)
  {
    f.(events := Some(LIBUSB_HOTPLUG_EVENT_DEVICE_ARRIVED))
  }

  /** `HotplugFilter::left_only`: report departures only. */
  function LeftOnly(f: HotplugFilter): (g: HotplugFilter)
    ensures GetEvents(g) == LIBUSB_HOTPLUG_EVENT_DEVICE_LEFT
    ensures SameExcept(f, g, EventsField)
  {
    f.(events := Some(LIBUSB_HOTPLUG_EVENT_DEVICE_LEFT))
  }

  /** `HotplugFilter::enumerate`: also report the devices already attached
      when the callback is registered. */
  function Enumerate(f: HotplugFilter): (g: HotplugFilter)
    ensures GetFlags(g) == LIBUSB_HOTPLUG_ENUMERATE
    ensures SameExcept(f, g, EnumerateField)
  {
    f.(enumerate := true)
  }

  /** A new filter matches any vendor, product and class, reports both kinds
      of event, and does not enumerate. */
  lemma NewMatchesEverything()
    ensures GetVendor(New()) == LIBUSB_HOTPLUG_MATCH_ANY
    ensures GetProduct(New()) == LIBUSB_HOTPLUG_MATCH_ANY
    ensures GetClass(New()) == LIBUSB_HOTPLUG_MATCH_ANY
    ensures HasFlag(GetEvents(New()), LIBUSB_HOTPLUG_EVENT_DEVICE_ARRIVED)
    ensures HasFlag(GetEvents(New()), LIBUSB_HOTPLUG_EVENT_DEVICE_LEFT)
    ensures WithinFlags(GetEvents(New()), LIBUSB_HOTPLUG_EVENT_DEVICE_ARRIVED, LIBUSB_HOTPLUG_EVENT_DEVICE_LEFT)
    ensures GetFlags(New()) == 0
  {
  }

  /** Of `arrived_only` and `left_only`, the one applied last decides the
      event mask. */
  lemma LastSelectorWins(f: HotplugFilter)
    ensures ArrivedOnly(LeftOnly(f)) == ArrivedOnly(f)
    ensures LeftOnly(ArrivedOnly(f)) == LeftOnly(f)
    ensures GetEvents(ArrivedOnly(LeftOnly(f))) == LIBUSB_HOTPLUG_EVENT_DEVICE_ARRIVED
    ensures GetEvents(LeftOnly(ArrivedOnly(f))) == LIBUSB_HOTPLUG_EVENT_DEVICE_LEFT
  {
  }

  /** A single-event selector reports its own event and not the other. */
  lemma SelectorsAreExclusive(f: HotplugFilter)
    ensures HasFlag(GetEvents(ArrivedOnly(f)), LIBUSB_HOTPLUG_EVENT_DEVICE_ARRIVED)
    ensures !HasFlag(GetEvents(ArrivedOnly(f)), LIBUSB_HOTPLUG_EVENT_DEVICE_LEFT)
    ensures HasFlag(GetEvents(LeftOnly(f)), LIBUSB_HOTPLUG_EVENT_DEVICE_LEFT)
    ensures !HasFlag(GetEvents(LeftOnly(f)), LIBUSB_HOTPLUG_EVENT_DEVICE_ARRIVED)
  {
  }

  /** One builder call with its argument. */
  datatype Builder =
    | WithVendor(vendor: i32)
    | WithProduct(product: i32)
    | WithClass(deviceClass: i32)
    | WithArrivedOnly
    | WithLeftOnly
    | WithEnumerate

  /** The setting a builder call writes. */
  function FieldOf(b: Builder): Field {
    match b
    case WithVendor(_) => VendorField
    case WithProduct(_) => ProductField
    case WithClass(_) => ClassField
    case WithArrivedOnly | WithLeftOnly => EventsField
    case WithEnumerate => EnumerateField
  }

  /** Apply one builder call to a filter. */
  function Apply(f: HotplugFilter, b: Builder): (g: HotplugFilter)
    ensures SameExcept(f, g, FieldOf(b))
  {
    match b
    case WithVendor(v) => Vendor(f, v)
    case WithProduct(p) => Product(f, p)
    case WithClass(c) => Class(f, c)
    case WithArrivedOnly => ArrivedOnly(f)
    case WithLeftOnly => LeftOnly(f)
    case WithEnumerate => Enumerate(f)
  }

  /** Builder calls that write different settings can be made in either
      order: every pair of the six builders whose settings differ. */
  lemma BuildersCommute(f: HotplugFilter, a: Builder, b: Builder)
    requires FieldOf(a) != FieldOf(b)
    ensures Apply(Apply(f, a), b) == Apply(Apply(f, b), a)
  {
  }

  /** Of two builder calls that write the same setting, the later one alone
      decides the result. */
  lemma LastBuilderWins(f: HotplugFilter, a: Builder, b: Builder)
    requires FieldOf(a) == FieldOf(b)
    ensures Apply(Apply(f, a), b) == Apply(f, b)
  {
  }
}
