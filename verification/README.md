# libusb-rs: the pure core, modelled in Dafny

This project models the parts of the `libusb` Rust crate (a safe wrapper over
the C library libusb) that hold logic of their own rather than pointer
plumbing:

- **`BitSet`** (`bit_set.dfy`, with bit-level lemmas in `bits.dfy`): a
  fixed-capacity set of `usize` values kept in 32-bit words. `contains`,
  `insert` and `remove` are bounds-checked, and the iterator yields the members
  by scanning word by word and clearing the lowest set bit each step. The
  storage is a `seq<bv32>`. `Model` is the abstract set of values, and `Valid`
  is the representation invariant: the storage holds the allocated number of
  words, and no bit at or above the capacity is set.
- **`HotplugFilter`** (`hotplug.dfy`): the builder of the five match settings
  for hot-plug registration, and the getters that turn unset settings into
  libusb's "match any" sentinel, the default event mask and the flags word.
- **`HotPlugEvent::from_i32`** (`event.dfy`): the partial decoder of libusb
  hot-plug event codes.
- **Transfers** (`transfer.dfy`): the total decoder `TransferStatus::from_libusb`.
  It also covers what `Transfer::new`, `submit_transfer`, `cancel_transfer` and
  the completion trampoline do to libusb's transfer descriptor. The descriptor
  is a plain record. The answer of `libusb_alloc_transfer` and the return codes
  of the native calls are parameters.
- **`DeviceList` and its `Devices` iterator** (`device_list.dfy`): a cursor
  over the first `len` entries of the array libusb fills. Device pointers are
  an abstract type parameter.

`src/lib.rs` declares `extern crate bit_set` and no `mod bit_set`, so
`src/bit_set.rs` may not be compiled into the crate; the model covers that file
as written, whether or not it is linked.

`base.dfy` holds `Option`, `Result` and the crate's `Error`. It also holds
`Check`, the crate's `try_unsafe!` convention: a libusb return code of 0 is
success, and anything else is propagated as an error. `libusb.dfy` holds the
C integer types (`u8`, `u32`, `i32` as newtypes), the libusb constants with the
values of libusb's public header, and C's `|` and `as i32` on those types,
written out in two's complement.

Ownership transfer in the source is modelled by returning values. A `&mut self`
method returns the new value of `self` next to its result. For example,
`Insert(bs, v)` returns the set after the call and `insert`'s `Result`.

`src/transfer.rs` keeps no submission state: `new` configures the descriptor
once, and `submit_transfer` may be called at any time, so the model has no
transfer states either.

## Model

| member | source | states |
|---|---|---|
| Base.Check | src/transfer.rs:97 | a libusb call succeeds exactly when it returns 0; otherwise its code is propagated unchanged as the error |
| Libusb.WrapI32 | src/transfer.rs:94 | `usize as i32` keeps a length below 2^31 unchanged and otherwise agrees with it modulo 2^32 |
| Bits.TrailingZeros | src/bit_set.rs:68 | `trailing_zeros` of a non-zero word names a set bit |
| Bits.TrailingZerosIsLowest | src/bit_set.rs:68 | no bit below `trailing_zeros` is set, so the bit it names is the lowest set bit |
| Bits.ClearTrailingBit | src/bit_set.rs:69 | `block & (block - 1)` clears exactly the lowest set bit and keeps every other bit |
| BitSets.WithCapacity | src/bit_set.rs:12-17 | `with_capacity(n)` allocates the least number of 32-bit words that covers `n` values, all zero: a valid set with no members |
| BitSets.Contains | src/bit_set.rs:20-26 | `Overflow` exactly when the value is at or above the capacity; otherwise whether the value is a member |
| BitSets.ContainsByModel | src/bit_set.rs:20-26 | `contains` depends only on the capacity and the set's members, not on how the words hold them |
| BitSets.Insert | src/bit_set.rs:29-34 | out of range: `Overflow`, set unchanged; in range: `Ok`, members become old members plus the value; inserting a member writes nothing; the invariant is kept |
| BitSets.Remove | src/bit_set.rs:37-42 | out of range: `Overflow`, set unchanged; in range: `Ok`, members become old members minus the value; removing a non-member writes nothing; the invariant is kept |
| BitSets.FreshSetIsEmpty | src/bit_set.rs:91-95 | a fresh set of capacity `n` answers `Ok(false)` below `n` and `Overflow` from `n` on |
| BitSets.InsertThenContains | src/bit_set.rs:105-111 | after an accepted `insert(v)`, `contains(v)` is `Ok(true)` and every other value answers as before |
| BitSets.InsertIdempotent | src/bit_set.rs:113-121 | a second `insert(v)` returns `Ok(())` and leaves the set as the first one left it |
| BitSets.InsertThenRemove | src/bit_set.rs:29-42 | `remove` undoes `insert`: afterwards the members are the original ones without the value, and exactly the original ones when the value was not a member |
| BitSets.RemoveThenContains | src/bit_set.rs:123-140 | after an accepted `remove(v)`, `contains(v)` is `Ok(false)` and every other value answers as before; this covers removing a non-member |
| BitSets.Iterate | src/bit_set.rs:45-51 | `iter` starts at word 0, with exactly the set's members still to be yielded; it needs a capacity of at least 1 because it reads `storage[0]` |
| BitSets.Next | src/bit_set.rs:65-83 | `Iter::next` keeps scanning the same words from word boundaries; what it yields is stated by `BitSets.NextYieldsLeast` |
| BitSets.NextYieldsLeast | src/bit_set.rs:61-84 | each `next` yields the least value still pending and removes exactly that value; it returns `None` exactly when nothing is pending, and nothing is pending afterwards |
| BitSets.Collect | src/bit_set.rs:61-84 | `iter().collect()` yields every member exactly once, in strictly ascending order, and only values below the capacity |
| BitSets.AscendingUnique | src/bit_set.rs:155-156 | two strictly ascending sequences with the same members are equal, so the collected sequence is determined by the set alone |
| BitSets.InsertSample | src/bit_set.rs:149-153 | the test's inserts of 1, 12, 123 and 255 into an empty set of capacity 256 are kept, and the insert of 512 is refused with `Overflow` |
| BitSets.IteratesInOrder | src/bit_set.rs:143-157 | the crate's iteration test: the empty set collects to `[]`, and after those inserts it collects to `[1, 12, 123, 255]` |
| Events.FromI32 | src/event.rs:10-16 | the arrival code decodes to `Arrived`, the departure code to `Left`, and every other code to `None`, each as an if-and-only-if |
| Events.DecodeInvertsCode | src/event.rs:10-16 | decoding is the inverse of the event-to-code map: `from_i32(c) == Some(e)` exactly when `c` is `e`'s code |
| Events.DecodeInjective | src/event.rs:12-13 | two codes that decode to the same event are equal |
| Events.TwoCodesDecode | src/event.rs:10-16 | exactly two codes decode to an event: the arrival code and the departure code |
| Hotplug.New | src/hotplug.rs:21-29 | a new filter has no vendor, product, class or event selection, and does not enumerate |
| Hotplug.GetVendor | src/hotplug.rs:31-33 | the selected vendor id, or `LIBUSB_HOTPLUG_MATCH_ANY` when none was selected |
| Hotplug.GetProduct | src/hotplug.rs:35-37 | the selected product id, or `LIBUSB_HOTPLUG_MATCH_ANY` when none was selected |
| Hotplug.GetClass | src/hotplug.rs:39-41 | the selected device class, or `LIBUSB_HOTPLUG_MATCH_ANY` when none was selected |
| Hotplug.GetEvents | src/hotplug.rs:43-45 | the selected event, or exactly `ARRIVED \| LEFT`: a mask with both the arrival and the departure flag set and no other bit |
| Hotplug.GetFlags | src/hotplug.rs:47-53 | `LIBUSB_HOTPLUG_ENUMERATE` exactly when enumeration was requested, and 0 exactly when it was not |
| Hotplug.Vendor | src/hotplug.rs:55-58 | the vendor getter returns the given id, and every other setting and getter is unchanged |
| Hotplug.Product | src/hotplug.rs:60-63 | the product getter returns the given id, and every other setting and getter is unchanged |
| Hotplug.Class | src/hotplug.rs:65-68 | the class getter returns the given class, and every other setting and getter is unchanged |
| Hotplug.ArrivedOnly | src/hotplug.rs:70-73 | the event mask becomes the arrival code, and every other setting and getter is unchanged |
| Hotplug.LeftOnly | src/hotplug.rs:75-78 | the event mask becomes the departure code, and every other setting and getter is unchanged |
| Hotplug.Enumerate | src/hotplug.rs:80-83 | the flags become `LIBUSB_HOTPLUG_ENUMERATE`, and every other setting and getter is unchanged |
| Hotplug.NewMatchesEverything | src/hotplug.rs:21-45 | a new filter matches any vendor, product and class, asks for exactly the arrival and departure events (both flags, no other bit), and asks for no flags |
| Hotplug.LastSelectorWins | src/hotplug.rs:70-78 | of `arrived_only` and `left_only`, the one applied last decides the event mask; the earlier one leaves no trace |
| Hotplug.SelectorsAreExclusive | src/hotplug.rs:70-78 | a single-event selector sets its own event flag and not the other one |
| Hotplug.Apply | src/hotplug.rs:55-83 | each of the six builders changes only the setting it writes |
| Hotplug.BuildersCommute | src/hotplug.rs:55-83 | any two builder calls that write different settings, with any arguments, can be made in either order |
| Hotplug.LastBuilderWins | src/hotplug.rs:55-83 | of two builder calls that write the same setting, the later one alone decides the filter |
| Transfers.FromLibusb | src/transfer.rs:20-31 | codes 0 to 6 decode to the seven named statuses, in order; `Unknown` exactly for every other code, negative ones included |
| Transfers.StatusRoundTrip | src/transfer.rs:20-31 | the decoder and the libusb status enumeration are inverse to each other on the named statuses |
| Transfers.FromLibusbInjective | src/transfer.rs:21-28 | distinct codes in 0 to 6 decode to distinct statuses |
| Transfers.New | src/transfer.rs:52-89 | `NoMem` exactly when allocation returns null; otherwise the descriptor carries the handle, flags, endpoint, type, status and timeout it was given, its completion function is the trampoline, and the user's callback is kept |
| Transfers.Submit | src/transfer.rs:91-99 | the descriptor's buffer becomes the data, and its length becomes `data.len() as i32`; the configuration is untouched, so the completion function stays the trampoline; the native return code is propagated, with `Ok` exactly on 0 |
| Transfers.Cancel | src/transfer.rs:101-104 | `Ok` exactly when `libusb_cancel_transfer` returns 0; otherwise its code is the error |
| Transfers.Trampoline | src/transfer.rs:107-118 | assuming `user_data` leads to the live `Transfer` (the source does not ensure this, see "Left out"): the user's callback is called exactly when there is one, once, with the decoded status and the descriptor's `actual_length` |
| Transfers.CompletionReachesCallback | src/transfer.rs:52-118 | a transfer that is created, submitted and then completed by libusb calls its callback once, with the final status decoded and the bytes moved; without a callback, nothing is called. This holds under the same `user_data` assumption as `Transfers.Trampoline` |
| DeviceLists.FromLibusb | src/device_list.rs:69-79 | the list's `len()` is the count libusb reported, and its devices are the first `len` entries of the array |
| DeviceLists.Len | src/device_list.rs:25-27 | `len()` is the number of devices the list makes available |
| DeviceLists.Iter | src/device_list.rs:32-38 | `iter` starts at index 0 over exactly the list's first `len()` entries, and its size hint is `(len, Some(len))` |
| DeviceLists.Next | src/device_list.rs:51-60 | below the end, `next` returns the device at the index and advances the index by one; at the end, it returns `None` and the cursor stays put; the index never passes the end |
| DeviceLists.SizeHint | src/device_list.rs:62-65 | both bounds are the same number, and it is the count of devices after the index |
| DeviceLists.SizeHintExact | src/device_list.rs:62-65 | the size hint is exact: both of its bounds equal the number of devices `next` still yields, and those are the devices after the index, in order |
| DeviceLists.Collect | src/device_list.rs:48-60 | a full iteration yields exactly `len()` devices, in list order |

## Left out

- `src/context.rs` is not part of this model. It holds libusb initialisation, device enumeration, hot-plug registration with its callback trampoline, event handling and `open_device_with_vid_pid`, all of which are calls into libusb.
- `src/device.rs` is not part of this model: reference counting, descriptor reads and opening are calls into libusb.
- `src/bos_descriptor.rs` is not part of this model: it reads fields through raw pointers into memory that libusb owns.
- `src/context/async_awakener.rs`, `src/context/raw_context_wrapper.rs` and `src/transfer/unhandled_transfer/local_context.rs` are not part of this model. They hold threads, a mutex and polling, and `Deref`/`Drop` shims over a raw pointer.
- Logging levels (`LogLevel`) are left out: a constant map passed to `libusb_set_debug`.
- Transfers.Submit: the descriptor's `buffer` is modelled as a copy of the data's contents at submission. In the source it is a raw pointer into the caller's `&mut [u8]` (src/transfer.rs:91-94), through which libusb writes the received bytes after the call returns. So the model cannot say that the `actual_length` bytes land in the caller's slice. Nor can it say that the slice may already be dropped or reused by then: the borrow ends when `submit_transfer` returns, while libusb still holds the pointer. `Finish` changes only the status and `actual_length`.
- The `Drop` of `Transfer` (cancel, then free) is left out: it is about memory ownership.
- Transfers.Trampoline: the model links a transfer to its callback directly and so assumes that `user_data` leads to the live `Transfer`. The source does not ensure this. `new` points `user_data` at its local `transfer` (src/transfer.rs:77-85) and then moves that value out (src/transfer.rs:88), so the trampoline (src/transfer.rs:108-112) reads through a pointer to a stack slot that is no longer the transfer. The same holds for Transfers.CompletionReachesCallback. What the trampoline does through that dangling pointer is undefined behaviour and is not modelled.
- Transfers.New: the number of isochronous packets is only passed to the allocator, which is a parameter, so it does not appear in the model.
- The translation of libusb error codes into the crate's `Error` variants (the crate's error module) is not part of this model. `Base.Native` carries the raw code.
- The `Drop` of `DeviceList`, which frees the array, and the `Context` clone each `Devices` step takes are left out. `Device` construction from a pointer is modelled as the pointer itself.
- DeviceLists.FromLibusb: requires the array to hold at least `len` entries. The source trusts libusb for this and cannot check it.
- BitSets.Iterate: requires a capacity of at least 1. With capacity 0, `iter` indexes an empty vector and panics; the model has no panics, so this case is excluded rather than modelled. BitSets.Collect inherits the requirement.
- BitSets.InsertThenRemove: states the round trip on the set's members, not on the storage words.
- BitSets.WithCapacity: `usize` arithmetic is unbounded here, so the overflow of `nbits + ITEM_BITS - 1` (src/bit_set.rs:15) for a capacity within 31 of `usize::MAX` is not modelled. In a release build the sum wraps and the set gets 0 words, after which every in-range `contains`, `insert` or `remove` panics on `storage[value / ITEM_BITS]` (src/bit_set.rs:22); in a debug build the addition itself panics. The model has no panics, and for those capacities it gives the words the unbounded formula yields.
- Hotplug.GetVendor: like the source, the getters cannot tell an explicitly selected `LIBUSB_HOTPLUG_MATCH_ANY` from no selection. The contracts state the getter value, not that distinction.
- The libusb constants are given the values of libusb's public header. The proofs about events use only the fact that the arrival and departure codes differ, and that each is a single flag bit.
