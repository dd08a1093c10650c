/** A value that may be absent: JavaScript's `undefined` results, and the
    sampling loops that have not yet received enough random draws. */
module Optional {

  datatype Option<+T> = None | Some(value: T)
}
