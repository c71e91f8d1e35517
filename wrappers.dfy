/** Optional values: the model's stand-in for a Rust `Option`, and for an
    operation that panics (`unwrap` on a failed parse, "Rating not found!"). */
module Wrappers {

  datatype Option<+T> = None | Some(value: T)
}
