/** Optional values, as Kotlin's nullable references (`Element?`). */
module Wrappers {

  datatype Option<T> = None | Some(value: T)

}
