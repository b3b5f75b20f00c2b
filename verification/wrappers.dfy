/** The optional value used for the script's optional API key and for decoders that can fail. */
module Wrappers {

  datatype Option<+T> = None | Some(value: T)
}
