/** A nullable reference of the scene code: `None` stands for JavaScript's
    `null` (or any other falsy placeholder where an object is expected). */
module Wrappers {

  datatype Option<+T> = None | Some(value: T)
}
