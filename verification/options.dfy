/** Swift's `Optional`, the result type of every read accessor of the
    named-view preference value: absence is a value, never an error. */
module Options {

  datatype Option<+T> = None | Some(value: T) {

    /** Swift's `??` on optionals: this value when present, otherwise `other`. */
    function OrElse(other: Option<T>): (r: Option<T>)
      ensures Some? ==> r == this
      ensures None? ==> r == other
    {
      match this
      case Some(_) => this
      case None => other
    }
  }
}
