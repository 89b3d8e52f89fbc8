/** The usual optional-value datatype. In the relay it stands for a JavaScript
    value that may be `undefined`: a room id missing from a join payload, or the
    room of a sender that never joined. */
module Wrappers {

  datatype Option<+T> = None | Some(value: T)

}
