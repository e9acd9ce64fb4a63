/** The optional value used wherever the handler may find nothing (no reply match,
    no roster user, no staff member) or an HTTP call may fail. */
module Options {

  datatype Option<+T> = None | Some(value: T)
}
