/** Small shared pieces. */
module Collections {

  datatype Option<T> = None | Some(value: T)

  /** `s` without its entry `i`. */
  function Without<T>(s: seq<T>, i: nat): seq<T>
    requires i < |s|
  {
    s[..i] + s[i + 1..]
  }
}
