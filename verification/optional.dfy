/**
 JavaScript's `null`-or-value, as the calendar uses it for the selected event and the
 selected date.
 */
module Optional {
  datatype Option<T> = None | Some(value: T)
}
