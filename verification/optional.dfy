/** An optional value: stands in for JavaScript's `null` and for an empty
    form selection. */
module Optional {

  datatype Option<T> = None | Some(value: T)
}
