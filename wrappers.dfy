/** Small wrapper used for the optional predecessor symbol
    and for the possibly missing best label. */
module Wrappers {

  /** `None` stands for Java's `Optional.empty()` (start of sequence) or for
      a `null` result; `Some(v)` for a present value. */
  datatype Option<T> = None | Some(value: T)
}
