/** A value that may be missing: the model of a parameter typed `string | undefined | null`. */
module Optional {

  /** `None` stands for both `null` and `undefined`. */
  datatype Option<T> = None | Some(value: T)
}
