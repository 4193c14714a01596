/** Option and Result values used for the source's `None` and its raised errors. */
module Wrappers {

  datatype Option<+T> = None | Some(value: T)

  datatype Result<+R, +E> = Success(value: R) | Failure(error: E)

  /** The values of the `Some` entries, in order: what a loop that appends only on success builds. */
  function Somes<T>(opts: seq<Option<T>>): seq<T>
  {
    if opts == [] then []
    else
      var last := opts[|opts| - 1];
      Somes(opts[..|opts| - 1]) + (if last.Some? then [last.value] else [])
  }

  lemma {:induction false} SomesBound<T>(opts: seq<Option<T>>)
    ensures |Somes(opts)| <= |opts|
    decreases |opts|
  {
    if opts != [] {
      SomesBound(opts[..|opts| - 1]);
    }
  }

  lemma {:induction false} SomesMember<T>(opts: seq<Option<T>>, x: T)
    ensures x in Somes(opts) <==> Some(x) in opts
    decreases |opts|
  {
    if opts != [] {
      var init := opts[..|opts| - 1];
      SomesMember(init, x);
      assert opts == init + [opts[|opts| - 1]];
    }
  }
}
