/** The optional value used where the JavaScript code would produce `undefined` or `NaN`. */
module Optional {

  datatype Option<+T> = None | Some(value: T)
}
