/** The optional value used for the event limit, the PGN filter and the playback failure point. */
module Options {
  datatype Option<T> = None | Some(value: T)
}
