/** Optional values: `None` stands for JavaScript's `undefined` wherever a
    routine of the utility returns "nothing". */
module Wrappers {

  datatype Option<+T> = None | Some(value: T)

}
