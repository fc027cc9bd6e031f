/** An optional value, the model of java.util.Optional as returned by a repository lookup. */
module Optional {

  datatype Option<+T> = None | Some(value: T)
}
