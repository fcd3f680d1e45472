/** An optional value, standing for the JavaScript `null`/`undefined` results of the game code. */
module Wrappers {

  datatype Option<T> = None | Some(value: T)

}
