/** The history panel's state (web/src/composables/useHistory.js): the
    reactive refs become fields of a class, the computed filteredItems a
    method that changes nothing, and the API calls' outcomes parameters.
    Timers, the debounce, the toasts' display and copyItem are left out. */
module UseHistory {
  import opened Wrappers
  import opened Seqs
  import opened Models
  import opened History
  import opened Handlers

  /** What getHistory gave: a JSON array, another JSON value, or a thrown
      error. */
  datatype Loaded = ArrayOf(items: seq<Entry>) | NotArray | Failed

  /** A toast: its message and type. */
  datatype Toast = Toast(message: string, kind: string)

  /** The history list loadHistory keeps: the array when the reply is one,
      and an empty list both for any other reply and on failure. */
  function LoadedItems(o: Loaded): (r: seq<Entry>)
    ensures o.ArrayOf? ==> r == o.items
    ensures !o.ArrayOf? ==> r == []
  {
    if o.ArrayOf? then o.items else []
  }

  /** The body togglePin sends: the item's id with its pinned flag
      negated. */
  function TogglePinRequest(item: Entry): (r: PinRequest)
    ensures r.id == item.id && r.pinned != item.pinned
  {
    PinRequest(item.id, !item.pinned)
  }

  function IsPinned(e: Entry): bool {
    e.pinned
  }

  class HistoryView {
    var historyItems: seq<Entry>
    var historyLoading: bool
    var searchQuery: string
    var sortBy: string
    var limit: int

    /** The refs' initial values; the sort order defaults to "recent". */
    constructor ()
      ensures historyItems == [] && historyLoading && searchQuery == "" && sortBy == "recent" && limit == 80
    {
      historyItems, historyLoading, searchQuery, sortBy, limit := [], true, "", "recent", 80;
    }

    /** filteredItems: a copy of the list, reversed in place for "oldest",
        filtered to the pinned items for "pinned", and left in server
        order for "recent" or any other value.  Nothing is modified. */
    method FilteredItems() returns (list: seq<Entry>)
      ensures sortBy == "oldest" ==> list == Reverse(historyItems)
      ensures sortBy == "pinned" ==> list == Filter(historyItems, IsPinned)
      ensures sortBy != "oldest" && sortBy != "pinned" ==> list == historyItems
    {
      var a := new Entry[|historyItems|];
      forall k | 0 <= k < a.Length {
        a[k] := historyItems[k];
      }
      assert a[..] == historyItems;
      if sortBy == "oldest" {
        ReverseInPlace(a);
      }
      list := a[..];
      if sortBy == "pinned" {
        list := Filter(list, IsPinned);
      }
    }

    /** loadHistory: the list requested with the current limit and query is
        replaced by LoadedItems of the outcome, and loading ends whatever the
        outcome. */
    method LoadHistory(outcome: Loaded) returns (askedLimit: int, askedSearch: string)
      modifies this
      ensures askedLimit == old(limit) && askedSearch == old(searchQuery)
      ensures historyItems == LoadedItems(outcome) && !historyLoading
      ensures searchQuery == old(searchQuery) && sortBy == old(sortBy) && limit == old(limit)
    {
      historyLoading := true;
      askedLimit, askedSearch := limit, searchQuery;
      match outcome {
        case ArrayOf(items) =>
          historyItems := items;
        case NotArray =>
          historyItems := [];
        case Failed =>
          historyItems := [];
      }
      historyLoading := false;
    }

    /** togglePin: sends the negated flag; on success reloads the list and
        reports "Pinned" or "Unpinned" after the item's old flag; on failure
        reports "Pin failed" and leaves the list as it was. */
    method TogglePin(item: Entry, pinOk: bool, reload: Loaded) returns (request: PinRequest, toast: Toast)
      modifies this
      ensures request == TogglePinRequest(item)
      ensures pinOk ==> historyItems == LoadedItems(reload) && !historyLoading
      ensures pinOk ==> toast == Toast(if !item.pinned then "Pinned" else "Unpinned", "success")
      ensures !pinOk ==> historyItems == old(historyItems) && historyLoading == old(historyLoading)
                         && toast == Toast("Pin failed", "error")
      ensures searchQuery == old(searchQuery) && sortBy == old(sortBy) && limit == old(limit)
    {
      request := PinRequest(item.id, !item.pinned);
      if !pinOk {
        toast := Toast("Pin failed", "error");
        return;
      }
      var _, _ := LoadHistory(reload);
      toast := Toast(if !item.pinned then "Pinned" else "Unpinned", "success");
    }
  }

  /** The "oldest" view read backwards is the "recent" view. */
  lemma OldestUndoesRecent(items: seq<Entry>)
    ensures Reverse(Reverse(items)) == items
  {
    ReverseReverse(items);
  }

  /** The "pinned" view holds exactly the pinned items of the list. */
  lemma PinnedViewMembers(items: seq<Entry>, e: Entry)
    ensures e in Filter(items, IsPinned) <==> e in items && e.pinned
  {
    FilterMembers(items, IsPinned, e);
  }

  /** On a list in the server's order (pinned first, newest first) the
      "pinned" view is newest first. */
  lemma PinnedViewNewestFirst(items: seq<Entry>)
    requires SortedByOrder(items)
    ensures var v := Filter(items, IsPinned);
            forall i, j :: 0 <= i < j < |v| ==> v[i].id > v[j].id
  {
    var v := Filter(items, IsPinned);
    FilterKeepsPairwise(items, IsPinned, Before);
    forall i, j | 0 <= i < j < |v| ensures v[i].id > v[j].id {
      assert Before(v[i], v[j]) && v[i].pinned && v[j].pinned;
    }
  }

  /** Sending togglePin's request for a row of the table flips that row's
      flag and nothing else about it. */
  lemma TogglePinFlips(rows: seq<Entry>, item: Entry)
    requires IdsIncreasing(rows) && item in rows
    ensures var q := TogglePinRequest(item);
            FindById(PinRows(rows, q.id, q.pinned), item.id) == Some(item.(pinned := !item.pinned))
  {
    var f := FindById(rows, item.id);
    assert f.Some?;
    var k :| 0 <= k < |rows| && rows[k] == item;
    var k' :| 0 <= k' < |rows| && rows[k'] == f.value;
    assert k == k';
    PinThenFind(rows, item.id, !item.pinned);
  }
}
