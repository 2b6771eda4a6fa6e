/** An optional value: JavaScript's `undefined` (a missing array element, an
    unset object field) is `None`. */
module Options {

  datatype Option<+T> = None | Some(value: T)
}
