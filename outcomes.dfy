/** Values that stand for the allocator's results and exceptions. */
module Outcomes {

  datatype Option<T> = None | Some(value: T)

  /** The two exceptions the allocator throws: `std::bad_alloc` when no
      contiguous run can be reserved, `std::invalid_argument` when no pool
      owns an address handed back. */
  datatype Error = BadAlloc | InvalidArgument

  /** Either a returned value or the exception that was thrown instead. */
  datatype Result<T> = Ok(value: T) | Err(error: Error)
}
