/** An optional value, shared by the modules that model absent files, outputs and results. */
module Options {

  datatype Option<+T> = None | Some(value: T)
}
