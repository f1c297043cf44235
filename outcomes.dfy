/** The optional-value type shared by the modules of this model. */
module Outcomes {

  datatype Option<+T> = None | Some(value: T)

}
