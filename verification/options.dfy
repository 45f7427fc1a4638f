/** The optional-value type used wherever the JavaScript returns `null`
    or a result may be absent. */
module Options {

  datatype Option<T> = None | Some(value: T)
}
