/** The single-slot cache of the latest clipboard value
    (internal/store/store.go; clipboardStore in main.go:29-44 is the same
    type).  The read-write mutex only serialises access and is left out. */
module Store {
  import opened Models

  class Store {
    var latest: Entry

    /** store.New: the zero entry, whose text is empty. */
    constructor ()
      ensures latest == ZeroEntry
    {
      latest := ZeroEntry;
    }

    /** Set overwrites the slot with v, whatever it held: no comparison of
        id, pin or time. */
    method Set(v: Entry)
      modifies this
      ensures latest == v
    {
      latest := v;
    }

    /** Get returns the slot, every field as it was set, and changes
        nothing. */
    method Get() returns (v: Entry)
      ensures v == latest
    {
      v := latest;
    }
  }

  /** Get after Set(v) returns v, with every field intact (main_test.go:11-19
      checks text, source and pinned). */
  method SetThenGet(s: Store, v: Entry) returns (got: Entry)
    modifies s
    ensures got == v && s.latest == v
  {
    s.Set(v);
    got := s.Get();
  }

  /** Before any Set the slot holds the zero entry, whose text is empty. */
  method GetBeforeSet() returns (got: Entry)
    ensures got == ZeroEntry && got.text == ""
  {
    var s := new Store();
    got := s.Get();
  }
}
