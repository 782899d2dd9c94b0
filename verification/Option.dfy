/** The usual optional value, shared by the modules below. */
module OptionType {
  datatype Option<+T> = None | Some(value: T)
}
