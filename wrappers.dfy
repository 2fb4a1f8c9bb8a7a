/** The optional value used for absent data: a missing parent, a search
    that finds nothing, a report guard that returns early. */
module Wrappers {

  datatype Option<+T> = None | Some(value: T)
}
