/** The absent-or-present value returned by a first-match search; it stands in
    for the `undefined` that a failed `Array.prototype.find` yields and for the
    `null` net box before one has been seen. */
module Options {

  datatype Option<+T> = None | Some(value: T)
}
