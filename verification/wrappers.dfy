/** Optional values, used wherever the modelled code either produces a value
    or raises and has the exception swallowed. */
module Wrappers {

  /** `None` stands for "no value": a reverted quote, a search that raised. */
  datatype Option<+T> = None | Some(value: T)
}
