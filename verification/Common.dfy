/** What several modules need: optional values and one law of sequences. */
module Common {

  datatype Option<T> = None | Some(value: T)

  lemma Assoc<T>(a: seq<T>, b: seq<T>, c: seq<T>)
    ensures a + (b + c) == a + b + c
  {
  }

  /** The same with four. */
  lemma Assoc4<T>(a: seq<T>, b: seq<T>, c: seq<T>, d: seq<T>)
    ensures a + (b + c + d) == a + b + c + d
    ensures a + (b + (c + d)) == a + (b + c) + d
  {
    Assoc(a, b + c, d);
    Assoc(a, b, c);
    Assoc(b, c, d);
  }
}
