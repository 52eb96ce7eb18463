/** Failure-carrying datatypes used in place of the C code's NULL returns
    and kernel failure sentinels. */
module Wrappers {

  /** Something that may be absent; replaces a NULL pointer result. */
  datatype Option<+T> = None | Some(value: T)

  /** A value or the reason there is none. */
  datatype Result<+T, +E> = Ok(value: T) | Err(error: E)

  /** The ways an operation on the stopped target can fail. */
  datatype Error =
    | AccessError(addr: bv64)        // a byte of the word at addr is not mapped
    | UnknownRegister(name: string)  // no descriptor has this name
    | InvalidRegister(dwarf: int)    // a descriptor number outside the register layout
}
