/** The absent/present distinction that Go expresses with nil maps and nil slices. */
module Optional {

  datatype Option<+T> = None | Some(value: T)
}
