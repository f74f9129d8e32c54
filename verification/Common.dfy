/** Datatypes and helpers every module shares. */
module Common {

  datatype Option<+T> = None | Some(value: T)

  /** The elements of a sequence, without order or repetition. */
  function Elements<T>(s: seq<T>): set<T> {
    set x | x in s
  }

  lemma ElementsOfConcat<T>(s: seq<T>, t: seq<T>)
    ensures Elements(s + t) == Elements(s) + Elements(t)
  {
    forall x
      ensures x in s + t <==> x in s || x in t
    {
    }
  }
}
