/** The type-erased output sink that every formatter writes to, seen as the
    sequence of everything written so far. */
module Output {
  class Sink<T> {
    var text: seq<T>

    constructor ()
      ensures text == []
    {
      text := [];
    }

    method Put(c: T)
      modifies this
      ensures text == old(text) + [c]
    {
      text := text + [c];
    }

    method Write(s: seq<T>)
      modifies this
      ensures text == old(text) + s
    {
      text := text + s;
    }
  }
}
