/** The growable list of the repository's data_structures package
    (ArrayList, whose code is not part of this model), reduced to what the
    core uses: a list object that starts empty and is appended to in place,
    so that a caller and the routine it hands the list to see the same
    appends. */
module Collections {

  class List<T> {
    var items: seq<T>

    constructor ()
      ensures items == []
    {
      items := [];
    }

    method Append(x: T)
      modifies this
      ensures items == old(items) + [x]
    {
      items := items + [x];
    }
  }
}
