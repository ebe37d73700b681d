/** A value that may be absent: JavaScript's `undefined` result of
    `Array.prototype.find`, or a navigation relay that was not sent. */
module Optional {

  datatype Option<+T> = None | Some(value: T)

}
