/** The one wrapper type the model needs: Python's "value or None". */
module Common {
  datatype Option<+T> = None | Some(value: T)
}
