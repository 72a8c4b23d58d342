/** The optional-value wrapper used for every field of a material description
    that may or may not have been provided. */
module Optional {
  datatype Option<+T> = None | Some(value: T)
}
