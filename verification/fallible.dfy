/** Machine integer widths, Rust's `Option`, and a `Result` whose failure is a
    kernel panic. Every `unwrap`, `expect`, `assert!` and overflow check
    of the modelled kernel ends in `Fatal` with the reason below. */
module Fallible {

  const U64_LIMIT: int := 0x1_0000_0000_0000_0000

  /** `u64`, which is also `usize` on riscv64. */
  type u64 = x: int | 0 <= x < U64_LIMIT

  type u8 = x: int | 0 <= x < 0x100

  datatype Option<+T> = None | Some(value: T)

  /** Why the kernel halted. */
  datatype Panic =
    | CurrentUninitialized           // `expect("current task is uninitialized")`
    | UnwrapNone                     // `Option::unwrap` on `None`
    | UnwrapErr                      // `Result::unwrap` on `Err`
    | AssertionFailed(condition: string)
    | AddOverflow                    // "attempt to add with overflow"
    | MulOverflow                    // "attempt to multiply with overflow"

  datatype Result<+T> = Ok(value: T) | Fatal(panic: Panic) {

    predicate IsFailure() {
      Fatal?
    }

    function PropagateFailure<U>(): Result<U>
      requires Fatal?
    {
      Fatal(panic)
    }

    function Extract(): T
      requires Ok?
    {
      value
    }
  }
}
