/** The Option type used to model an operation that may throw. */
module Options {

  /** `None` stands for an exception, `Some(v)` for a normal return of `v`. */
  datatype Option<+T> = None | Some(value: T)

  /** Prepends `prefix` to a successful sequence result; a failure stays a failure. */
  function Prepend<T>(prefix: seq<T>, o: Option<seq<T>>): (r: Option<seq<T>>)
    ensures r.Some? <==> o.Some?
    ensures r.Some? ==> |r.value| == |prefix| + |o.value|
    ensures r.Some? ==> r.value[..|prefix|] == prefix && r.value[|prefix|..] == o.value
  {
    match o
    case None => None
    case Some(tail) => Some(prefix + tail)
  }

  lemma PrependTwice<T>(a: seq<T>, b: seq<T>, o: Option<seq<T>>)
    ensures Prepend(a, Prepend(b, o)) == Prepend(a + b, o)
  {
    if o.Some? {
      assert a + (b + o.value) == (a + b) + o.value;
    }
  }
}
