/** Types shared by the models of the algorithm-name decomposer and of the
    static/inline-cache call-site patching protocol. */
module Basics {

  /** A value that may be absent; `None` stands for a Java or C++ null. */
  datatype Option<+T> = None | Some(value: T)

  /** The outcome of an operation that can fail fatally. */
  datatype Result<+T, +E> = Success(value: T) | Failure(error: E)

  /** A code address. Address 0 is C++ `NULL` and the all-ones value
      `(address)-1` is a sentinel; neither is an address of this type. A
      possibly null address is an `Option<Address>`, and the sentinel is
      modelled by a dedicated constructor where the source uses it. */
  type Address = a: nat | a != 0 witness 1

  /** A machine data word (`intptr_t`), as embedded in a move-immediate instruction. */
  type Word = int
}
