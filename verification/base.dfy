/** Small result types shared by the three battery readers. */
module Base {

  /** A value that may be absent: the model of a C# `null` reference. */
  datatype Option<+T> = None | Some(value: T)

  /** The outcome of one refresh pass over a vendor source.  A pass either runs
      to its natural end, or an exception escapes the parse loop and is caught
      by the reader; in both cases the cache holds whatever was stored so far. */
  datatype Pass<+T> = Completed(stats: T) | Aborted(stats: T)
}
