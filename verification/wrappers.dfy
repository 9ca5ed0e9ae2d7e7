/** The optional value used for the nullable references of the floor-plan editor
    (`ObjectType?`, `PlacedObject?`, `string?`). */
module Wrappers {

  datatype Option<+T> = None | Some(value: T)
}
