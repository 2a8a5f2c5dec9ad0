/** The Rust standard types the task records are built from. */
module RustTypes {

  /** `Option<T>`, for the optional fields of both task records. */
  datatype Option<T> = None | Some(value: T)

  const U32_MAX: nat := 0xFFFF_FFFF

  /** `u32`: costs and priorities. */
  type u32 = n: nat | n <= U32_MAX

}
