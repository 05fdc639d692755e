/** Asynchronous transfers: the status decoder, and the fields the safe layer
    writes into libusb's transfer descriptor when it creates, submits and
    completes a transfer.  The descriptor is a plain record; the allocator's
    answer and the native calls' return codes are parameters. */
module Transfers {
  import Base
  import opened Libusb

  datatype TransferStatus =
    | Completed
    | Error
    | Timeout
    | Cancelled
    | Stall
    | NoDevice
    | Overflow
    | Unknown

  /** The value of each named status in libusb's `libusb_transfer_status`
      enumeration (`LIBUSB_TRANSFER_COMPLETED` = 0 up to
      `LIBUSB_TRANSFER_OVERFLOW` = 6); `Unknown` has none. */
  function StatusCode(s: TransferStatus): Base.Option<i32> {
    match s
    case Completed => Base.Some(0)
    case Error => Base.Some(1)
    case Timeout => Base.Some(2)
    case Cancelled => Base.Some(3)
    case Stall => Base.Some(4)
    case NoDevice => Base.Some(5)
    case Overflow => Base.Some(6)
    case Unknown => Base.None
  }

  /** `TransferStatus::from_libusb`: every code decodes; those outside the
      enumeration, negative ones included, decode to `Unknown`. */
  function FromLibusb(code: i32): (s: TransferStatus)
    ensures s == Unknown <==> code < 0 || code > 6
    ensures s != Unknown ==> StatusCode(s) == Base.Some(code)
  {
    match code
    case 0 => Completed
    case 1 => Error
    case 2 => Timeout
    case 3 => Cancelled
    case 4 => Stall
    case 5 => NoDevice
    case 6 => Overflow
    case _ => Unknown
  }

  /** Decoding inverts the enumeration in both directions. */
  lemma StatusRoundTrip(s: TransferStatus, code: i32)
    ensures s != Unknown ==> FromLibusb(StatusCode(s).value) == s
    ensures 0 <= code <= 6 ==> StatusCode(FromLibusb(code)) == Base.Some(code)
  {
  }

  /** Distinct codes of the enumeration decode to distinct statuses. */
  lemma FromLibusbInjective(a: i32, b: i32)
    requires 0 <= a <= 6 && 0 <= b <= 6 && FromLibusb(a) == FromLibusb(b)
    ensures a == b
  {
  }

  /** The completion function stored in a descriptor: none, the crate's
      trampoline, or some other function. */
  datatype CompletionFn = NoFn | TrampolineFn | OtherFn(id: nat)

  /** The fields of `struct libusb_transfer` the safe layer reads or writes;
      `H` stands for native device handles. */
  datatype NativeTransfer<H> = NativeTransfer(
    devHandle: Base.Option<H>,
    flags: u8,
    endpoint: u8,
    transferType: u8,
    timeout: u32,
    status: i32,
    length: i32,
    actualLength: i32,
    callback: CompletionFn,
    buffer: seq<u8>)

  /** A `Transfer`: the descriptor it owns, the user's completion callback
      (identified by `C`) if any, and the device handle it was made for. */
  datatype Transfer<H, C> = Transfer(native: NativeTransfer<H>, callback: Base.Option<C>, deviceHandle: H)

  /** The descriptor carries the configuration `Transfer::new` was given. */
  predicate ConfiguredAs<H(==)>(n: NativeTransfer<H>, deviceHandle: H, flags: u8, endpoint: u8,
                            transferType: u8, status: i32, timeout: u32)
  {
    && n.devHandle == Base.Some(deviceHandle)
    && n.flags == flags
    && n.endpoint == endpoint
    && n.transferType == transferType
    && n.status == status
    && n.timeout == timeout
    && n.callback == TrampolineFn
  }

  /** The descriptor fields `new` writes and `submit_transfer` leaves alone. */
  predicate SameConfiguration<H(==)>(a: NativeTransfer<H>, b: NativeTransfer<H>) {
    && a.devHandle == b.devHandle
    && a.flags == b.flags
    && a.endpoint == b.endpoint
    && a.transferType == b.transferType
    && a.status == b.status
    && a.timeout == b.timeout
    && a.callback == b.callback
  }

  /** `Transfer::new`.  `allocation` is what `libusb_alloc_transfer` returned
      for the requested number of isochronous packets: `None` for a null
      pointer, else the fresh descriptor.  A null pointer is `NoMem`;
      otherwise the descriptor gets the arguments and the trampoline, and
      keeps whatever else the allocator put there. */
  function New<H(==), C(==)>(deviceHandle: H, flags: u8, endpoint: u8, transferType: u8, status: i32,
                     timeout: u32, callback: Base.Option<C>,
                     allocation: Base.Option<NativeTransfer<H>>): (r: Base.Result<Transfer<H, C>>)
    ensures r.Err? <==> allocation.None?
    ensures r.Err? ==> r.error == Base.NoMem
    ensures r.Ok? ==>
      && ConfiguredAs(r.value.native, deviceHandle, flags, endpoint, transferType, status, timeout)
      && r.value.native.buffer == allocation.value.buffer
      && r.value.native.length == allocation.value.length
      && r.value.native.actualLength == allocation.value.actualLength
      && r.value.callback == callback
      && r.value.deviceHandle == deviceHandle
  {
    match allocation
    case None => Base.Err(Base.NoMem)
    case Some(n) =>
      var native := n.(devHandle := Base.Some(deviceHandle), flags := flags, endpoint := endpoint,
                       transferType := transferType, status := status, timeout := timeout,
                       callback := TrampolineFn);
      Base.Ok(Transfer(native, callback, deviceHandle))
  }

  /** `Transfer::submit_transfer`: point the descriptor at `data` and set its
      length to `data.len() as i32`, then submit; `submitted` is what
      `libusb_submit_transfer` returned.  The buffer is bound whether or not
      the submission succeeds. */
  function Submit<H(==), C(==)>(t: Transfer<H, C>, data: seq<u8>, submitted: i32): (r: (Transfer<H, C>, Base.Result<()>))
    ensures r.0.native.buffer == data
    ensures |data| < 0x8000_0000 ==> r.0.native.length as int == |data|
    ensures r.0.native.length == WrapI32(|data|)
    ensures SameConfiguration(t.native, r.0.native) && r.0.native.actualLength == t.native.actualLength
    ensures r.0.callback == t.callback && r.0.deviceHandle == t.deviceHandle
    ensures r.1.Ok? <==> submitted == LIBUSB_SUCCESS
    ensures r.1.Err? ==> r.1.error == Base.Native(submitted as int)
  {
    var native := t.native.(buffer := data, length := WrapI32(|data|));
    (t.(native := native), Base.Check(submitted as int))
  }

  /** `Transfer::cancel_transfer`: `cancelled` is what `libusb_cancel_transfer`
      returned; the transfer itself is not touched. */
  function Cancel<H, C>(t: Transfer<H, C>, cancelled: i32): (r: Base.Result<()>)
    ensures r.Ok? <==> cancelled == LIBUSB_SUCCESS
    ensures r.Err? ==> r.error == Base.Native(cancelled as int)
  {
    Base.Check(cancelled as int)
  }

  /** What libusb does to the descriptor when a submitted transfer ends: it
      records the final status and the number of bytes moved. */
  function Finish<H, C>(t: Transfer<H, C>, status: i32, actualLength: i32): Transfer<H, C> {
    t.(native := t.native.(status := status, actualLength := actualLength))
  }

  /** One call of the user's completion callback. */
  datatype Invocation<C> = Invocation(callback: C, status: TransferStatus, actualLength: i32)

  /** `libusb_transfer_callback_function`, the trampoline libusb calls when a
      transfer ends: the call it makes of the user's callback, or `None` when
      the transfer has no callback.  It makes at most one call, with the
      decoded status and the descriptor's `actual_length`. */
  function Trampoline<H, C(==)>(t: Transfer<H, C>): (r: Base.Option<Invocation<C>>)
    ensures r.Some? <==> t.callback.Some?
    ensures r.Some? ==> r.value.callback == t.callback.value
    ensures r.Some? ==> r.value.status == FromLibusb(t.native.status)
    ensures r.Some? ==> r.value.actualLength == t.native.actualLength
  {
    match t.callback
    case None => Base.None
    case Some(cb) => Base.Some(Invocation(cb, FromLibusb(t.native.status), t.native.actualLength))
  }

  /** End to end: a transfer created with callback `cb`, submitted, and then
      finished by libusb with status code `code` and `n` bytes moved, calls
      `cb` once with the decoded status and `n`; without a callback nothing
      is called.  Whatever status was given to `new` is overwritten. */
  lemma CompletionReachesCallback<H, C>(deviceHandle: H, flags: u8, endpoint: u8, transferType: u8,
                                        status: i32, timeout: u32, callback: Base.Option<C>,
                                        allocation: NativeTransfer<H>, data: seq<u8>,
                                        code: i32, n: i32)
    ensures var created := New(deviceHandle, flags, endpoint, transferType, status, timeout,
                               callback, Base.Some(allocation));
      && created.Ok?
      && var submitted := Submit(created.value, data, LIBUSB_SUCCESS);
      && submitted.1 == Base.Ok(())
      && Trampoline(Finish(submitted.0, code, n)) ==
           (if callback.Some? then Base.Some(Invocation(callback.value, FromLibusb(code), n)) else Base.None)
  {
  }
}
