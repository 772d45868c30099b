module Wrappers {
  datatype Option<+T> = None | Some(value: T)

  lemma Regroup<T>(f: seq<T>, g: seq<T>, h: seq<T>)
    ensures f + (g + h) == (f + g) + h
  {}
}
