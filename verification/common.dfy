/** Optional value, used wherever the source returns `undefined` or `null`
    for "nothing there". */
module Common {

  datatype Option<+T> = None | Some(value: T)
}
