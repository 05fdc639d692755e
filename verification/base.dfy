/** Failure-carrying datatypes shared by every module: the `Option` and
    `Result` of Rust's core library, and the crate's error enumeration. */
module Base {

  datatype Option<+T> = None | Some(value: T)

  /** The crate's `Error`.  `Overflow` and `NoMem` are raised by the safe layer
      itself; every other failure is a non-zero libusb return code, which is
      carried unchanged (the code-to-variant table of the crate's error module
      is not part of this model). */
  datatype Error = Overflow | NoMem | Native(code: int)

  datatype Result<+T> = Ok(value: T) | Err(error: Error)

  /** The crate's `try_unsafe!` convention: a libusb call that returns 0
      succeeded, any other return value is propagated as an error. */
  function Check(code: int): (r: Result<()>)
    ensures r.Ok? <==> code == 0
    ensures r.Err? ==> r.error == Native(code)
  {
    if code == 0 then Ok(()) else Err(Native(code))
  }
}
