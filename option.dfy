/** The optional value the source spells `Option<T>`. */
module Opt {

  datatype Option<T> = None | Some(value: T)

  /** The contents of an option as a list of zero or one elements. */
  function ToSeq<T>(o: Option<T>): (r: seq<T>)
    ensures |r| == (if o.Some? then 1 else 0)
    ensures o.Some? ==> r[0] == o.value
  {
    if o.Some? then [o.value] else []
  }
}
