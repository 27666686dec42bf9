/** Optional results. `None` stands for a Rust `unwrap` that would panic. */
module Wrappers {

  datatype Option<+T> = None | Some(value: T)

}
