/** The usual Some/None wrapper, used for database lookups that may find nothing
    and for URL parts that the parser may not report. */
module Optional {
  datatype Option<+T> = None | Some(value: T)
}
