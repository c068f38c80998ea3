/** The clipboard_history table behind SqliteHistory
    (internal/history/sqlite.go), modelled as the sequence of its rows in
    insertion order together with the next AUTOINCREMENT id.  The SQL
    statements become functions on that sequence: the ORDER BY pinned DESC,
    id DESC order, the lower(text) LIKE search, LIMIT, WHERE id = n, UPDATE
    and DELETE.  Whether the sqlite3 process succeeds is a parameter. */
module History {
  import opened Wrappers
  import opened GoStrings
  import opened Models
  import opened Seqs
  import opened Sanitize
  import opened SqlQuote
  import InsertId

  /** A failing sqlite3 run, errNoRows, errNotFound, and the parse error
      strconv.ParseInt reports. */
  datatype HistoryError = StorageError | NoRows | NotFound | BadInteger

  // ---------------------------------------------------------------------
  // The table and its invariant
  // ---------------------------------------------------------------------

  /** Rows are kept in insertion order, so their ids increase. */
  predicate IdsIncreasing(rows: seq<Entry>) {
    forall i, j :: 0 <= i < j < |rows| ==> rows[i].id < rows[j].id
  }

  /** AUTOINCREMENT: every id in the table is positive and below the next
      id to hand out, which never passes MaxInt64 + 1. */
  predicate TableInvariant(rows: seq<Entry>, nextId: int) {
    && 1 <= nextId <= MaxInt64 + 1
    && (forall i :: 0 <= i < |rows| ==> 0 < rows[i].id < nextId)
    && IdsIncreasing(rows)
  }

  function IdLess(a: Entry, b: Entry): bool {
    a.id < b.id
  }

  // ---------------------------------------------------------------------
  // ORDER BY pinned DESC, id DESC
  // ---------------------------------------------------------------------

  /** e comes strictly before f under ORDER BY pinned DESC, id DESC. */
  predicate Before(e: Entry, f: Entry) {
    (e.pinned && !f.pinned) || (e.pinned == f.pinned && e.id > f.id)
  }

  predicate SortedByOrder(s: seq<Entry>) {
    forall i, j :: 0 <= i < j < |s| ==> Before(s[i], s[j])
  }

  function PinnedRow(e: Entry): bool {
    e.pinned
  }

  function UnpinnedRow(e: Entry): bool {
    !e.pinned
  }

  /** The rows in the order SELECT ... ORDER BY pinned DESC, id DESC
      returns them: the pinned rows newest first, then the others newest
      first. */
  function Ordered(rows: seq<Entry>): seq<Entry> {
    Reverse(Filter(rows, PinnedRow)) + Reverse(Filter(rows, UnpinnedRow))
  }

  /** Reversing a sequence whose ids increase gives one whose ids decrease,
      and every element of the reversal satisfies what all of s satisfies. */
  lemma ReverseDescending(s: seq<Entry>, f: Entry -> bool)
    requires forall i, j :: 0 <= i < j < |s| ==> IdLess(s[i], s[j])
    requires forall i :: 0 <= i < |s| ==> f(s[i])
    ensures forall i, j :: 0 <= i < j < |Reverse(s)| ==> Reverse(s)[i].id > Reverse(s)[j].id
    ensures forall i :: 0 <= i < |Reverse(s)| ==> f(Reverse(s)[i])
  {
    forall i | 0 <= i < |s| ensures f(Reverse(s)[i]) {
      ReverseAt(s, i);
    }
    forall i, j | 0 <= i < j < |s| ensures Reverse(s)[i].id > Reverse(s)[j].id {
      ReverseAt(s, i);
      ReverseAt(s, j);
    }
  }

  /** The ordered rows are sorted by the ORDER BY clause and are a
      permutation of the table. */
  lemma OrderedSorted(rows: seq<Entry>)
    requires IdsIncreasing(rows)
    ensures SortedByOrder(Ordered(rows))
    ensures multiset(Ordered(rows)) == multiset(rows)
  {
    var p := Filter(rows, PinnedRow);
    var u := Filter(rows, UnpinnedRow);
    FilterKeepsPairwise(rows, PinnedRow, IdLess);
    FilterKeepsPairwise(rows, UnpinnedRow, IdLess);
    ReverseDescending(p, PinnedRow);
    ReverseDescending(u, UnpinnedRow);
    var rp, ru := Reverse(p), Reverse(u);
    var o := Ordered(rows);
    assert o == rp + ru;
    forall i, j | 0 <= i < j < |o| ensures Before(o[i], o[j]) {
      if j < |rp| {
        assert o[i] == rp[i] && o[j] == rp[j];
      } else if i < |rp| {
        assert o[i] == rp[i] && o[j] == ru[j - |rp|];
      } else {
        assert o[i] == ru[i - |rp|] && o[j] == ru[j - |rp|];
      }
    }
    ReverseMultiset(p);
    ReverseMultiset(u);
    FilterPartition(rows, PinnedRow, UnpinnedRow);
  }

  /** Two different rows of the table never compare equal: one comes
      strictly before the other. */
  lemma BeforeTotal(rows: seq<Entry>, e: Entry, f: Entry)
    requires IdsIncreasing(rows)
    requires e in rows && f in rows && e != f
    ensures Before(e, f) || Before(f, e)
  {
    var i :| 0 <= i < |rows| && rows[i] == e;
    var j :| 0 <= j < |rows| && rows[j] == f;
    assert i != j;
  }

  // ---------------------------------------------------------------------
  // SELECT ... [WHERE lower(text) LIKE '%search%'] ORDER BY ... LIMIT n
  // ---------------------------------------------------------------------

  /** The WHERE clause List adds for a non-empty search: the lower-cased
      text contains the lower-cased search. */
  predicate Matches(e: Entry, search: string) {
    search == "" || Contains(Lower(e.text), Lower(search))
  }

  function MatchFilter(search: string): Entry -> bool {
    (e: Entry) => Matches(e, search)
  }

  /** What the List query selects. */
  function ListOf(rows: seq<Entry>, limit: int, search: string): seq<Entry> {
    Take(Filter(Ordered(rows), MatchFilter(search)), limit)
  }

  /** List returns at most limit rows, each a row of the table that
      matches the search, sorted pinned first and newest first. */
  lemma ListSound(rows: seq<Entry>, limit: int, search: string)
    requires IdsIncreasing(rows)
    ensures var l := ListOf(rows, limit, search);
            && (limit >= 0 ==> |l| <= limit)
            && SortedByOrder(l)
            && (forall i :: 0 <= i < |l| ==> l[i] in rows && Matches(l[i], search))
  {
    var o := Ordered(rows);
    var m := Filter(o, MatchFilter(search));
    var l := ListOf(rows, limit, search);
    OrderedSorted(rows);
    FilterKeepsPairwise(o, MatchFilter(search), Before);
    assert l == m[..|l|];
    forall i | 0 <= i < |l| ensures l[i] in rows && Matches(l[i], search) {
      assert l[i] == m[i];
      assert MatchFilter(search)(m[i]);
      FilterMembers(o, MatchFilter(search), m[i]);
      assert m[i] in multiset(o);
    }
  }

  /** List keeps the best rows: a matching row left out of the result comes
      after every row in it, and a row is only left out when the result is
      full. */
  lemma ListComplete(rows: seq<Entry>, limit: int, search: string, f: Entry)
    requires IdsIncreasing(rows)
    requires f in rows && Matches(f, search)
    requires f !in ListOf(rows, limit, search)
    ensures |ListOf(rows, limit, search)| == limit
    ensures forall e :: e in ListOf(rows, limit, search) ==> Before(e, f)
  {
    var o := Ordered(rows);
    var m := Filter(o, MatchFilter(search));
    var l := ListOf(rows, limit, search);
    OrderedSorted(rows);
    FilterKeepsPairwise(o, MatchFilter(search), Before);
    assert f in multiset(o);
    FilterMembers(o, MatchFilter(search), f);
    assert f in m;
    TakeLeavesLater(m, limit, Before, f);
  }

  /** The table of TestHistorySearchAndPin (main_test.go) once the first
      entry is pinned, in ORDER BY order. */
  lemma OrderedOfPinnedPair(a: Entry, b: Entry)
    requires a.pinned && !b.pinned
    ensures Ordered([a, b]) == [a, b]
  {
    FilterFirstOfPair(a, b, PinnedRow);
    FilterSecondOfPair(a, b, UnpinnedRow);
    ReverseSingleton(a);
    ReverseSingleton(b);
  }

  /** "alpha snippet" matches the search "alpha". */
  lemma AlphaFound()
    ensures Matches(Entry(1, "alpha snippet", "src1", "", true), "alpha")
  {
    LowerOfLower("alpha");
    LowerOfLower("alpha snippet");
    assert OccursAt("alpha snippet", "alpha", 0) by {
      assert "alpha snippet"[0..5] == "alpha";
    }
  }

  /** "beta note" does not. */
  lemma AlphaNotInBeta()
    ensures !Matches(Entry(2, "beta note", "src2", "", false), "alpha")
  {
    LowerOfLower("alpha");
    LowerOfLower("beta note");
    forall j | 0 <= j ensures !OccursAt("beta note", "alpha", j) {
      if j + 5 <= 9 {
        assert "beta note"[j..j + 5][1] == "beta note"[j + 1];
      }
    }
  }

  /** TestHistorySearchAndPin (main_test.go): with "alpha snippet" pinned
      and "beta note" not, List(10, "alpha") returns exactly the pinned
      entry. */
  lemma SearchAlphaFindsPinned(t1: string, t2: string)
    ensures var a := Entry(1, "alpha snippet", "src1", t1, true);
            var b := Entry(2, "beta note", "src2", t2, false);
            ListOf([a, b], 10, "alpha") == [a]
  {
    var a := Entry(1, "alpha snippet", "src1", t1, true);
    var b := Entry(2, "beta note", "src2", t2, false);
    OrderedOfPinnedPair(a, b);
    AlphaFound();
    AlphaNotInBeta();
    FilterFirstOfPair(a, b, MatchFilter("alpha"));
  }

  // ---------------------------------------------------------------------
  // WHERE id = n, UPDATE ... SET pinned, DELETE
  // ---------------------------------------------------------------------

  /** SELECT ... WHERE id = n LIMIT 1: the row with that id, if any. */
  function FindById(rows: seq<Entry>, id: int): (r: Option<Entry>)
    ensures r.Some? ==> r.value in rows && r.value.id == id
    ensures r.None? <==> forall e :: e in rows ==> e.id != id
  {
    if rows == [] then None
    else if rows[0].id == id then Some(rows[0])
    else FindById(rows[1..], id)
  }

  /** UPDATE clipboard_history SET pinned = p WHERE id = n: only the pinned
      flag of the row with that id changes; rows and their order stay. */
  function PinRows(rows: seq<Entry>, id: int, pinned: bool): (r: seq<Entry>)
    ensures |r| == |rows|
    ensures forall i :: 0 <= i < |r| ==>
              && r[i].id == rows[i].id && r[i].text == rows[i].text
              && r[i].source == rows[i].source && r[i].updatedAt == rows[i].updatedAt
              && r[i].pinned == (if rows[i].id == id then pinned else rows[i].pinned)
    ensures (forall e :: e in rows ==> e.id != id) ==> r == rows
  {
    seq(|rows|, i requires 0 <= i < |rows| =>
      if rows[i].id == id then rows[i].(pinned := pinned) else rows[i])
  }

  /** Pinning a row and then looking it up gives the row with the new flag;
      an absent id is still absent. */
  lemma PinThenFind(rows: seq<Entry>, id: int, pinned: bool)
    requires IdsIncreasing(rows)
    ensures var found := FindById(PinRows(rows, id, pinned), id);
            match FindById(rows, id)
            case None => found.None?
            case Some(e) => found == Some(e.(pinned := pinned))
  {
    var r := PinRows(rows, id, pinned);
    match FindById(rows, id)
    case None =>
      assert FindById(r, id).None? by {
        forall g | g in r ensures g.id != id {
          var k :| 0 <= k < |r| && r[k] == g;
          assert rows[k] in rows;
        }
      }
    case Some(e) =>
      var k :| 0 <= k < |rows| && rows[k] == e;
      assert r[k] == e.(pinned := pinned);
      assert IdsIncreasing(r);
      FindUnique(r, id, k);
  }

  /** In a table whose ids increase, the lookup of an id finds the one row
      that carries it. */
  lemma FindUnique(rows: seq<Entry>, id: int, k: int)
    requires IdsIncreasing(rows) && 0 <= k < |rows| && rows[k].id == id
    ensures FindById(rows, id) == Some(rows[k])
  {
    var f := FindById(rows, id);
    assert rows[k] in rows;
    var k' :| 0 <= k' < |rows| && rows[k'] == f.value;
    assert k' == k;
  }

  /** Setting a pin twice is setting it once. */
  lemma PinIdempotent(rows: seq<Entry>, id: int, pinned: bool)
    ensures PinRows(PinRows(rows, id, pinned), id, pinned) == PinRows(rows, id, pinned)
  {
  }

  /** Pinning keeps the table invariant. */
  lemma PinKeepsInvariant(rows: seq<Entry>, nextId: int, id: int, pinned: bool)
    requires TableInvariant(rows, nextId)
    ensures TableInvariant(PinRows(rows, id, pinned), nextId)
  {
  }

  function IdIsNot(id: int): Entry -> bool {
    (e: Entry) => e.id != id
  }

  /** DELETE FROM clipboard_history WHERE id = n: the rows with another id,
      in their order. */
  function DeleteRows(rows: seq<Entry>, id: int): (r: seq<Entry>)
    ensures forall e :: e in r <==> e in rows && e.id != id
  {
    var r := Filter(rows, IdIsNot(id));
    assert forall e :: e in r <==> e in rows && e.id != id by {
      forall e ensures e in r <==> e in rows && e.id != id {
        FilterMembers(rows, IdIsNot(id), e);
      }
    }
    r
  }

  /** Deleting keeps the table invariant, and the id is gone afterwards. */
  lemma DeleteKeepsInvariant(rows: seq<Entry>, nextId: int, id: int)
    requires TableInvariant(rows, nextId)
    ensures TableInvariant(DeleteRows(rows, id), nextId)
    ensures FindById(DeleteRows(rows, id), id).None?
  {
    var r := DeleteRows(rows, id);
    FilterKeepsPairwise(rows, IdIsNot(id), IdLess);
    forall i | 0 <= i < |r| ensures 0 < r[i].id < nextId {
      assert r[i] in rows;
    }
  }

  /** Appending a row with the next id keeps the table invariant. */
  lemma AppendKeepsInvariant(rows: seq<Entry>, nextId: int, e: Entry)
    requires TableInvariant(rows, nextId)
    requires e.id == nextId <= MaxInt64
    ensures TableInvariant(rows + [e], nextId + 1)
  {
  }

  // ---------------------------------------------------------------------
  // The table as an object
  // ---------------------------------------------------------------------

  /** SqliteHistory with its database file replaced by the table it holds.
      Each sqlOk parameter says whether that call's sqlite3 run succeeds. */
  class SqliteHistory {
    var rows: seq<Entry>
    var nextId: int

    ghost predicate Valid()
      reads this
    {
      TableInvariant(rows, nextId)
    }

    /** A freshly created, empty table. */
    constructor ()
      ensures Valid() && rows == [] && nextId == 1
    {
      rows := [];
      nextId := 1;
    }

    /** Insert (lines 46-85): the INSERT stores the values of the
        sqlQuoteMultiline literals, that is the sanitised text and source,
        and the timestamp; SELECT last_insert_rowid() prints the new id,
        which is read back through the last-line parser.  The entry
        returned carries the text and source as passed in, not pinned.
        Past MaxInt64 AUTOINCREMENT cannot hand out an id and sqlite3
        fails (SQLITE_FULL). */
    method Insert(text: string, source: string, now: string, sqlOk: bool)
        returns (r: Result<Entry, HistoryError>)
      requires Valid()
      modifies this
      ensures Valid()
      ensures r.Ok? <==> sqlOk && old(nextId) <= MaxInt64
      ensures r.Err? ==> r.error == StorageError && rows == old(rows) && nextId == old(nextId)
      ensures r.Ok? ==>
                && r.value == Entry(old(nextId), text, source, now, false)
                && rows == old(rows) + [Entry(old(nextId), SanitizeForDB(text), SanitizeForDB(source), now, false)]
                && nextId == old(nextId) + 1
                && (forall e :: e in old(rows) ==> e.id < r.value.id)
    {
      if !sqlOk || nextId > MaxInt64 {
        return Err(StorageError);
      }
      var textLit := QuoteMultiline(text);
      var sourceLit := QuoteMultiline(source);
      var nowLit := Quote(now);
      MultilineRoundTrip(text);
      MultilineRoundTrip(source);
      QuoteRoundTrip(now);
      var id := nextId;
      var row := Entry(id, Eval(textLit).value, Eval(sourceLit).value, Eval(nowLit).value, false);
      assert row == Entry(id, SanitizeForDB(text), SanitizeForDB(source), now, false);
      AppendKeepsInvariant(rows, nextId, row);
      rows := rows + [row];
      nextId := nextId + 1;
      var out := ShowNat(id);
      var parsed := InsertId.ParseInsertOutput(out);
      InsertId.InsertIdOfRowid(id);
      assert parsed == Ok(id);
      r := Ok(Entry(parsed.value, text, source, now, false));
    }

    /** Latest (lines 104-113): the first row under the ORDER BY, or
        errNoRows on an empty table. */
    method Latest(sqlOk: bool) returns (r: Result<Entry, HistoryError>)
      requires Valid()
      ensures !sqlOk ==> r == Err(StorageError)
      ensures sqlOk ==> (r.Ok? <==> rows != [])
      ensures sqlOk && r.Err? ==> r.error == NoRows
      ensures r.Ok? ==> r.value in rows
      ensures r.Ok? ==> forall f :: f in rows && f != r.value ==> Before(r.value, f)
    {
      if !sqlOk {
        return Err(StorageError);
      }
      var selected := ListOf(rows, 1, "");
      OrderedSorted(rows);
      ListSound(rows, 1, "");
      if |selected| == 0 {
        if rows != [] {
          ListComplete(rows, 1, "", rows[0]);
        }
        return Err(NoRows);
      }
      var e := selected[0];
      forall f | f in rows && f != e ensures Before(e, f) {
        ListComplete(rows, 1, "", f);
      }
      r := Ok(e);
    }

    /** ByID (lines 116-125): the row with that id, or errNotFound. */
    method ByID(id: int, sqlOk: bool) returns (r: Result<Entry, HistoryError>)
      requires Valid()
      ensures !sqlOk ==> r == Err(StorageError)
      ensures sqlOk ==> (r.Ok? <==> exists e :: e in rows && e.id == id)
      ensures sqlOk && r.Err? ==> r.error == NotFound
      ensures r.Ok? ==> r.value in rows && r.value.id == id
      ensures sqlOk && FindById(rows, id).Some? ==> r == Ok(FindById(rows, id).value)
    {
      if !sqlOk {
        return Err(StorageError);
      }
      var found := FindById(rows, id);
      if found.None? {
        return Err(NotFound);
      }
      r := Ok(found.value);
    }

    /** List (lines 128-135): at most limit matching rows (none when the
        limit is zero; a negative LIMIT is no bound in SQLite), pinned
        first and newest first. */
    method List(limit: int, search: string, sqlOk: bool) returns (r: Result<seq<Entry>, HistoryError>)
      requires Valid()
      ensures !sqlOk ==> r == Err(StorageError)
      ensures sqlOk ==> r == Ok(ListOf(rows, limit, search))
      ensures r.Ok? ==> limit >= 0 ==> |r.value| <= limit
      ensures r.Ok? ==> SortedByOrder(r.value)
      ensures r.Ok? ==> forall i :: 0 <= i < |r.value| ==> r.value[i] in rows && Matches(r.value[i], search)
    {
      if !sqlOk {
        return Err(StorageError);
      }
      ListSound(rows, limit, search);
      r := Ok(ListOf(rows, limit, search));
    }

    /** SetPinned (lines 88-95): no error for an id that is not there. */
    method SetPinned(id: int, pinned: bool, sqlOk: bool) returns (r: Result<(), HistoryError>)
      requires Valid()
      modifies this
      ensures Valid() && nextId == old(nextId)
      ensures r.Ok? <==> sqlOk
      ensures r.Err? ==> r.error == StorageError
      ensures rows == if sqlOk then PinRows(old(rows), id, pinned) else old(rows)
    {
      if !sqlOk {
        return Err(StorageError);
      }
      PinKeepsInvariant(rows, nextId, id, pinned);
      rows := PinRows(rows, id, pinned);
      r := Ok(());
    }

    /** Delete (lines 98-101): no error for an id that is not there. */
    method Delete(id: int, sqlOk: bool) returns (r: Result<(), HistoryError>)
      requires Valid()
      modifies this
      ensures Valid() && nextId == old(nextId)
      ensures r.Ok? <==> sqlOk
      ensures r.Err? ==> r.error == StorageError
      ensures rows == if sqlOk then DeleteRows(old(rows), id) else old(rows)
    {
      if !sqlOk {
        return Err(StorageError);
      }
      DeleteKeepsInvariant(rows, nextId, id);
      rows := DeleteRows(rows, id);
      r := Ok(());
    }
  }
}
