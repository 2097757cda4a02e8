/** Shared by the other modules: an optional value, as Go's `value, ok` pairs and nil pointers give. */
module Common {

  datatype Option<+T> = None | Some(value: T)
}
