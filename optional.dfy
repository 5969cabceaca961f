/** Python's `None`-or-value convention, shared by the modules of this model. */
module Optional {

  datatype Option<+T> = None | Some(value: T)

}
