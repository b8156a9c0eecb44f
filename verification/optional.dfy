/** An optional value: the source's `null` score and the absent curve segment. */
module Optional {

  datatype Option<T> = None | Some(value: T)
}
