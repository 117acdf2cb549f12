/** Types shared by the models of the boot loader's components. */
module Common {

  datatype Option<+T> = None | Some(value: T)

  /** Drops a known first element: s == [x] + t seen from both sides. */
  lemma ConsTail<T>(x: T, t: seq<T>)
    ensures ([x] + t)[0] == x && ([x] + t)[1..] == t
  {
  }
}
