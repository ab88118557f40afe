/** Arrow's `Option`, also used for Kotlin's nullable values (`null` is `None`). */
module Options {

  datatype Option<+T> = None | Some(value: T)
}
