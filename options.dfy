/** The optional value the Python code writes as `None` or a value. */
module Options {
  datatype Option<T> = None | Some(value: T)

  /** The values of the `Some` results of `f` over `xs`. */
  function SomeValues<T, U>(f: T -> Option<U>, xs: set<T>): set<U> {
    set x | x in xs && f(x).Some? :: f(x).value
  }

  /** One more argument adds its value, if it has one, and nothing else. */
  lemma SomeValuesAdd<T, U>(f: T -> Option<U>, xs: set<T>, x: T)
    ensures SomeValues(f, xs + {x}) == SomeValues(f, xs) + (if f(x).Some? then {f(x).value} else {})
  {
  }
}
