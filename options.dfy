/** The absent-or-present result returned by pops, queries and iterator steps. */
module Options {

  datatype Option<T> = None | Some(value: T)

}
