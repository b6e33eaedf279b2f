/** Vocabulary shared by every component: optional values and 64-bit integers. */
module Prelude {

  /** Rust's `Option`; `:-` stands for its `?` operator. */
  datatype Option<+T> = None | Some(value: T) {
    predicate IsFailure() { None? }

    function PropagateFailure<U>(): Option<U>
      requires None?
    {
      None
    }

    function Extract(): T
      requires Some?
    {
      value
    }
  }

  lemma Regroup<T>(a: seq<T>, b: seq<T>, c: seq<T>)
    ensures (a + b) + c == a + (b + c)
  {
  }

  lemma PrefixOneMore<T>(s: seq<T>, i: nat)
    requires i < |s|
    ensures s[..i + 1] == s[..i] + [s[i]]
  {
  }

  const I64_MIN := -0x8000_0000_0000_0000
  const I64_MAX := 0x7fff_ffff_ffff_ffff

  /** Every plain operation on an `i64` is checked by the verifier not to overflow. */
  newtype i64 = x: int | -0x8000_0000_0000_0000 <= x <= 0x7fff_ffff_ffff_ffff

  predicate FitsI64(x: int) { I64_MIN <= x <= I64_MAX }

  /** A `checked_*` operation: the mathematical result, or `None` when it does not fit. */
  function Checked(x: int): (r: Option<i64>)
    ensures r.Some? <==> FitsI64(x)
    ensures r.Some? ==> r.value as int == x
  {
    if FitsI64(x) then Some(x as i64) else None
  }
}
