/** Values shared by every part of the index-token model: identities, the
    integer widths of the Soroban contract interface, the error taxonomy and
    the failure-compatible wrappers that stand for a panic.

    A Soroban contract reports failure by panicking, which aborts the whole
    invocation. Here every panic becomes an `Err(..)` or `Fail(..)` value that
    the operations propagate with `:-`, in the same order as the panicking
    calls of the source. */
module Types {

  /** A Soroban `Address`: an opaque identity, modelled by its string key. */
  type Address = string

  const I128_MIN: int := -0x8000_0000_0000_0000_0000_0000_0000_0000
  const I128_MAX: int := 0x7fff_ffff_ffff_ffff_ffff_ffff_ffff_ffff
  const U32_MAX: int := 0xffff_ffff

  /** The Rust `i128` used for every amount. */
  type I128 = x: int | I128_MIN <= x <= I128_MAX

  /** The Rust `u32` used for the decimal precision. */
  type U32 = x: int | 0 <= x <= U32_MAX

  /** Why an invocation panicked. */
  datatype Error =
    | AlreadyInitialized   // "already initialized"
    | InvalidDecimal       // "Decimal must not be greater than 18"
    | Uninitialized        // read_administrator on a contract with no administrator
    | NotAuthorized        // a require_auth that the invocation does not satisfy
    | NegativeAmount       // "negative amount is not allowed"
    | InsufficientBalance  // spend_balance below the amount
    | Overflow             // i128 arithmetic overflow, a panic with overflow checks on

  datatype Option<T> = None | Some(value: T)

  /** The result of a check that either passes or panics. */
  datatype Outcome = Pass | Fail(error: Error) {
    predicate IsFailure() { Fail? }

    function PropagateFailure<U>(): Result<U>
      requires Fail?
    {
      Err(error)
    }
  }

  /** The result of a call that either returns a value or panics. */
  datatype Result<T> = Ok(value: T) | Err(error: Error) {
    predicate IsFailure() { Err? }

    function PropagateFailure<U>(): Result<U>
      requires Err?
    {
      Err(error)
    }

    function Extract(): T
      requires Ok?
    {
      value
    }
  }

  /** `address.require_auth()`: passes exactly when `who` signed the
      invocation. The host's signature checking is abstracted as membership
      in the set of addresses that signed. */
  function RequireAuth(signers: set<Address>, who: Address): (r: Outcome)
    ensures r.Pass? <==> who in signers
    ensures r.Fail? ==> r.error == NotAuthorized
  {
    if who in signers then Pass else Fail(NotAuthorized)
  }
}
