/** The conventional Some/None datatype, used wherever the service's records
    have a field that may be absent. */
module Options {

  datatype Option<+T> = None | Some(value: T)
}
