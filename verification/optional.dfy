/** An optional value: what an oracle or a lookup produces when it may find nothing. */
module Optional {

  datatype Option<+T> = None | Some(value: T)
}
