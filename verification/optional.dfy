/** A value that may be absent: an undefined form field, a missing
    array element, or a `parseInt` result that is NaN. */
module Optional {

  datatype Option<T> = None | Some(value: T)

}
