/** Types shared by the whole model: the status codes of the C interface,
    the fixed-width integers the interface uses, and a result wrapper. */
module Types {

  /** `uint64_t`, the width of every opaque handle. */
  newtype uint64 = x: int | 0 <= x < 0x1_0000_0000_0000_0000

  /** The number of distinct `uint64` values. */
  const Uint64Count: int := 0x1_0000_0000_0000_0000

  /** One `char` of a C buffer; buffers may hold any byte, including 0. */
  type byte = bv8

  /** `amd_comgr_status_t`: the only error channel of the interface. */
  datatype Status = Success | InvalidArgument | InvalidInput | OutOfResources

  /** A possibly null pointer. */
  datatype Option<T> = None | Some(value: T)

  /** A value, or the status explaining why there is none. */
  datatype Result<T> = Ok(value: T) | Err(status: Status)
}
