/** The list of attached devices libusb reports, and the cursor that walks
    it.  `D` stands for native device pointers; each step of the walk makes a
    `Device` from the pointer at the cursor, modelled as the pointer itself. */
module DeviceLists {
  import opened Base

  /** A `DeviceList`: libusb's device array and the count it reported.  The
      array holds at least `len` pointers. */
  datatype DeviceList<D> = DeviceList(list: seq<D>, len: nat)

  ghost predicate Valid<D>(l: DeviceList<D>) {
    l.len <= |l.list|
  }

  /** `device_list::from_libusb`: wrap the array libusb filled and the count
      it returned. */
  function FromLibusb<D>(list: seq<D>, len: nat): (l: DeviceList<D>)
    requires len <= |list|
    ensures Valid(l) && Len(l) == len
    ensures Entries(l) == list[..len]
  {
    DeviceList(list, len)
  }

  /** The devices the list makes available: the first `len` entries of the
      array. */
  function Entries<D>(l: DeviceList<D>): seq<D>
    requires Valid(l)
  {
    l.list[..l.len]
  }

  /** `DeviceList::len`. */
  function Len<D>(l: DeviceList<D>): (n: nat)
    ensures Valid(l) ==> n == |Entries(l)|
  {
    l.len
  }

  /** `Devices`, the iterator: the devices and the position of the next one. */
  datatype Cursor<D> = Cursor(devices: seq<D>, index: nat)

  /** The cursor never runs past the end. */
  ghost predicate InRange<D>(c: Cursor<D>) {
    c.index <= |c.devices|
  }

  /** `DeviceList::iter`: a fresh cursor at the first device. */
  function Iter<D>(l: DeviceList<D>): (c: Cursor<D>)
    requires Valid(l)
    ensures InRange(c) && c.index == 0 && |c.devices| == Len(l)
    ensures c.devices == Entries(l)
    ensures SizeHint(c) == (Len(l), Some(Len(l)))
  {
    Cursor(l.list[..l.len], 0)
  }

  /** `Devices::next`: the device at the cursor, and the cursor one step on;
      at the end, nothing, and the cursor stays where it is. */
  function Next<D>(c: Cursor<D>): (r: (Option<D>, Cursor<D>))
    ensures r.1.devices == c.devices
    ensures c.index < |c.devices| ==> r.0 == Some(c.devices[c.index]) && r.1.index == c.index + 1
    ensures c.index >= |c.devices| ==> r.0 == None && r.1 == c
    ensures InRange(c) ==> InRange(r.1)
  {
    if c.index < |c.devices| then
      (Some(c.devices[c.index]), c.(index := c.index + 1))
    else
      (None, c)
  }

  /** `Devices::size_hint`: how many devices are left, as both bounds.  The
      subtraction is `usize`, so the cursor must be in range. */
  function SizeHint<D>(c: Cursor<D>): (r: (nat, Option<nat>))
    requires InRange(c)
    ensures c.index + r.0 == |c.devices| && r.1 == Some(r.0)
  {
    var remaining := |c.devices| - c.index;
    (remaining, Some(remaining))
  }

  /** Everything `next` yields from `c` on, up to the first `None`. */
  ghost function Rest<D>(c: Cursor<D>): seq<D>
    decreases |c.devices| - c.index
  {
    var (d, c') := Next(c);
    if d.None? then [] else [d.value] + Rest(c')
  }

  /** The size hint is exact: its bounds are the number of devices the cursor
      still yields, and they are the devices after the cursor, in order. */
  lemma {:induction false} SizeHintExact<D>(c: Cursor<D>)
    requires InRange(c)
    ensures Rest(c) == c.devices[c.index..]
    ensures SizeHint(c).0 == |Rest(c)| && SizeHint(c).1 == Some(|Rest(c)|)
    decreases |c.devices| - c.index
  {
    if c.index < |c.devices| {
      SizeHintExact(Next(c).1);
    }
  }

  /** `list.iter().collect()`: exactly `len` devices, in list order. */
  method Collect<D>(l: DeviceList<D>) returns (devices: seq<D>)
    requires Valid(l)
    ensures |devices| == Len(l)
    ensures devices == Entries(l)
  {
    var c := Iter(l);
    devices := [];
    while true
      invariant InRange(c) && c.devices == Entries(l)
      invariant devices == c.devices[..c.index]
      decreases |c.devices| - c.index
    {
      var step := Next(c);
      if step.0.None? {
        break;
      }
      devices := devices + [step.0.value];
      c := step.1;
    }
  }
}
