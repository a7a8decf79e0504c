/** Types shared by the models. */
module Common {
  datatype Option<+T> = None | Some(value: T)

  type Addr = nat
  type Tick = nat

  function Min(x: int, y: int): int { if x <= y then x else y }

  function Max(x: int, y: int): int { if x >= y then x else y }

  lemma SomeElement<T>(s: set<T>) returns (y: T)
    requires s != {}
    ensures y in s
  {
    y :| y in s;
  }
}
