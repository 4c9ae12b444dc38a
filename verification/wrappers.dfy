/** The optional value used for every nullable reference of the controller
    (`null` in the component becomes `None`). */
module Wrappers {

  datatype Option<+T> = None | Some(value: T)

  /** The set of values an optional holds: empty for `None`, a singleton for `Some`. */
  function Elems<T(!new)>(o: Option<T>): (s: set<T>)
    ensures forall x :: x in s <==> o == Some(x)
  {
    if o.Some? then {o.value} else {}
  }
}
