/** The optional value used for "the solver found nothing" and for a label that does not parse. */
module Wrappers {

  datatype Option<+T> = None | Some(value: T)
}
