/** An optional value, standing for a Python value that may be `None` or a
    dictionary entry that may be missing. */
module Optional {

  datatype Option<T> = None | Some(value: T) {

    /** What `dict.get(key, fallback)` returns: the entry when it is there,
        `fallback` when it is missing. */
    function ValueOr(fallback: T): (v: T)
      ensures Some? ==> v == value
      ensures None? ==> v == fallback
    {
      if Some? then value else fallback
    }
  }
}
