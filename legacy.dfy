/** The older, single-file server (main.go): the same cache and the same
    table, but every read of the table goes through sqlite3's `.mode tabs`
    text and selectRows (TabRows), and the POST handler stores the trimmed
    text without sanitising it.  Values go into the table through sqlQuote
    literals, so the table holds exactly the strings passed in; what comes
    back is ReadBack of the rows the query selects.  Whether each sqlite3
    run succeeds is a parameter. */
module Legacy {
  import opened Wrappers
  import opened GoStrings
  import opened Models
  import opened Sanitize
  import opened SqlQuote
  import opened History
  import opened TabRows
  import opened Handlers
  import Store

  // ---------------------------------------------------------------------
  // The queries, read back through the text format
  // ---------------------------------------------------------------------

  /** The rows SELECT ... WHERE id = n LIMIT 1 selects. */
  function SelectedById(rows: seq<Entry>, id: int): (sel: seq<Entry>)
    ensures |sel| <= 1
    ensures sel == [] <==> FindById(rows, id).None?
  {
    match FindById(rows, id)
    case Some(e) => [e]
    case None => []
  }

  /** byID (main.go:385-394): the first row selectRows reads back, or "not
      found" when it reads none. */
  function ByIdOf(rows: seq<Entry>, id: int, sqlOk: bool): (r: Result<Entry, HistoryError>)
    ensures !sqlOk ==> r == Err(StorageError)
    ensures r.Ok? ==> FindById(rows, id).Some?
    ensures sqlOk && FindById(rows, id).None? ==> r == Err(NotFound)
  {
    if !sqlOk then Err(StorageError)
    else
      var back := ReadBack(SelectedById(rows, id));
      if back == [] then Err(NotFound) else Ok(back[0])
  }

  /** latest (main.go:374-383): the first row read back from the ORDER BY
      pinned DESC, id DESC LIMIT 1 query, or "no rows". */
  function LatestOf(rows: seq<Entry>, sqlOk: bool): (r: Result<Entry, HistoryError>)
    ensures !sqlOk ==> r == Err(StorageError)
    ensures sqlOk && rows == [] ==> r == Err(NoRows)
  {
    if !sqlOk then Err(StorageError)
    else
      var back := ReadBack(ListOf(rows, 1, ""));
      if back == [] then Err(NoRows) else Ok(back[0])
  }

  /** list (main.go:396-403): the List query, read back. */
  function ListRead(rows: seq<Entry>, limit: int, search: string, sqlOk: bool): (r: Result<seq<Entry>, HistoryError>)
    ensures r.Ok? <==> sqlOk
    ensures !sqlOk ==> r == Err(StorageError)
  {
    if !sqlOk then Err(StorageError) else Ok(ReadBack(ListOf(rows, limit, search)))
  }

  /** No row selected, no row read back. */
  lemma ReadBackNothing()
    ensures ReadBack([]) == []
  {
  }

  // ---------------------------------------------------------------------
  // On clean tables the reads agree with the newer server
  // ---------------------------------------------------------------------

  predicate AllClean(rows: seq<Entry>) {
    forall i :: 0 <= i < |rows| ==> Clean(rows[i])
  }

  /** Every element of a selection from a clean table is clean. */
  lemma CleanSelection(rows: seq<Entry>, sel: seq<Entry>)
    requires AllClean(rows)
    requires forall i :: 0 <= i < |sel| ==> sel[i] in rows
    ensures AllClean(sel)
  {
    forall i | 0 <= i < |sel| ensures Clean(sel[i]) {
      var j :| 0 <= j < |rows| && rows[j] == sel[i];
    }
  }

  /** On a clean table byID finds exactly the row with that id, as
      History.SqliteHistory.ByID does. */
  lemma ByIdClean(rows: seq<Entry>, id: int)
    requires AllClean(rows)
    ensures ByIdOf(rows, id, true) == match FindById(rows, id)
                                      case Some(e) => Ok(e)
                                      case None => Err(NotFound)
  {
    var sel := SelectedById(rows, id);
    CleanSelection(rows, sel);
    ReadBackClean(sel);
  }

  /** On a clean table list returns exactly what the List query selects;
      History.ListSound and History.ListComplete then say what that is. */
  lemma ListClean(rows: seq<Entry>, limit: int, search: string)
    requires IdsIncreasing(rows) && AllClean(rows)
    ensures ListRead(rows, limit, search, true) == Ok(ListOf(rows, limit, search))
  {
    var sel := ListOf(rows, limit, search);
    ListSound(rows, limit, search);
    CleanSelection(rows, sel);
    ReadBackClean(sel);
  }

  /** On a clean table latest is the first row under the ORDER BY, and "no
      rows" only for an empty table. */
  lemma LatestClean(rows: seq<Entry>)
    requires IdsIncreasing(rows) && AllClean(rows)
    ensures LatestOf(rows, true).Ok? <==> rows != []
    ensures LatestOf(rows, true).Ok? ==>
              var e := LatestOf(rows, true).value;
              && e in rows
              && forall f :: f in rows && f != e ==> Before(e, f)
  {
    var sel := ListOf(rows, 1, "");
    ListClean(rows, 1, "");
    ListSound(rows, 1, "");
    if sel == [] {
      if rows != [] {
        ListComplete(rows, 1, "", rows[0]);
      }
    } else {
      var e := sel[0];
      forall f | f in rows && f != e ensures Before(e, f) {
        ListComplete(rows, 1, "", f);
      }
    }
  }

  /** TestHistorySearchAndPin (main_test.go:37-64) on the older server:
      with "alpha snippet" pinned, searching "alpha" reads back exactly
      that entry, as long as the timestamps hold no tab or line break. */
  lemma SearchAlphaReadsPinned(t1: string, t2: string)
    requires '\t' !in t1 && '\n' !in t1
    ensures var a := Entry(1, "alpha snippet", "src1", t1, true);
            var b := Entry(2, "beta note", "src2", t2, false);
            ListRead([a, b], 10, "alpha", true) == Ok([a])
  {
    var a := Entry(1, "alpha snippet", "src1", t1, true);
    var b := Entry(2, "beta note", "src2", t2, false);
    assert ListOf([a, b], 10, "alpha") == [a] by {
      SearchAlphaFindsPinned(t1, t2);
    }
    AlphaEntryReadsBack(t1);
  }

  /** The first entry of that test has clean columns, pinned or not. */
  lemma AlphaEntryClean(t1: string, pinned: bool)
    requires '\t' !in t1 && '\n' !in t1
    ensures Clean(Entry(1, "alpha snippet", "src1", t1, pinned))
  {
    var a := Entry(1, "alpha snippet", "src1", t1, pinned);
    assert '\t' !in a.text && '\n' !in a.text by {
      forall i | 0 <= i < |a.text| ensures a.text[i] != '\t' && a.text[i] != '\n' {
      }
    }
    assert '\t' !in a.source && '\n' !in a.source by {
      forall i | 0 <= i < |a.source| ensures a.source[i] != '\t' && a.source[i] != '\n' {
      }
    }
  }

  /** The pinned entry of that test survives the text format. */
  lemma AlphaEntryReadsBack(t1: string)
    requires '\t' !in t1 && '\n' !in t1
    ensures var a := Entry(1, "alpha snippet", "src1", t1, true); ReadBack([a]) == [a]
  {
    AlphaEntryClean(t1, true);
    ReadBackClean([Entry(1, "alpha snippet", "src1", t1, true)]);
  }

  /** Inserting it into the empty table reads it back. */
  lemma AlphaInsertReadsBack(t1: string)
    requires '\t' !in t1 && '\n' !in t1
    ensures var a := Entry(1, "alpha snippet", "src1", t1, false); ByIdOf([a], 1, true) == Ok(a)
  {
    var a := Entry(1, "alpha snippet", "src1", t1, false);
    var none: seq<Entry> := [];
    assert none + [a] == [a];
    assert ByIdOf(none + [a], a.id, true) == Ok(a) by {
      AlphaEntryClean(t1, false);
      InsertReadsBackClean(none, a);
    }
  }

  /** Pinning id 1 in a table of ids 1 and 2. */
  lemma PinFirstOfTwo(a: Entry, b: Entry)
    requires a.id == 1 && b.id == 2
    ensures PinRows([a, b], 1, true) == [a.(pinned := true), b]
  {
    var r := PinRows([a, b], 1, true);
    assert r[0] == a.(pinned := true) && r[1] == b;
  }

  // ---------------------------------------------------------------------
  // What insert returns
  // ---------------------------------------------------------------------

  /** A row with clean columns that insert has just stored is read back as
      stored. */
  lemma InsertReadsBackClean(rows: seq<Entry>, e: Entry)
    requires forall f :: f in rows ==> f.id < e.id
    requires Clean(e)
    ensures ByIdOf(rows + [e], e.id, true) == Ok(e)
  {
    FindAfterOlder(rows, e);
    ReadBackClean([e]);
  }

  /** Looking up the id of a row appended after older rows finds it. */
  lemma {:induction false} FindAfterOlder(rows: seq<Entry>, e: Entry)
    requires forall f :: f in rows ==> f.id < e.id
    ensures FindById(rows + [e], e.id) == Some(e)
  {
    if rows == [] {
      assert rows + [e] == [e];
    } else {
      assert rows[0] in rows;
      assert (rows + [e])[1..] == rows[1..] + [e];
      FindAfterOlder(rows[1..], e);
    }
  }

  /** The bug: a text with a line break is stored, but the byID that insert
      ends with reads nothing back, so insert reports "not found" for a row
      that is in the table (the newer Insert returns the row it built
      instead). */
  lemma InsertLosesMultilineText(rows: seq<Entry>, id: int, x: string, y: string, source: string, now: string)
    requires forall f :: f in rows ==> f.id < id
    requires Clean(Entry(id, x + y, source, now, false)) && '\r' !in x
    ensures var e := Entry(id, x + "\n" + y, source, now, false);
            FindById(rows + [e], id) == Some(e) && ByIdOf(rows + [e], id, true) == Err(NotFound)
  {
    var e := Entry(id, x + "\n" + y, source, now, false);
    FindAfterOlder(rows, e);
    NewlineInTextLosesRow(Entry(id, x + y, source, now, false), x, y);
    assert Entry(id, x + y, source, now, false).(text := x + "\n" + y) == e;
  }

  /** The smallest instance: "a\nb" as the first entry of an empty table. */
  lemma InsertLosesLineBreakExample()
    ensures var e := Entry(1, "a\nb", "src", "now", false);
            FindById([e], 1) == Some(e) && ByIdOf([e], 1, true) == Err(NotFound)
  {
    InsertLosesMultilineText([], 1, "a", "b", "src", "now");
    assert "a" + "\n" + "b" == "a\nb";
    assert [] + [Entry(1, "a\nb", "src", "now", false)] == [Entry(1, "a\nb", "src", "now", false)];
  }

  /** A tab in the text is stored, but insert returns (and the handler
      caches) the row with its columns shifted. */
  lemma InsertShiftsTabbedText(rows: seq<Entry>, id: int, x: string, y: string, source: string, now: string)
    requires forall f :: f in rows ==> f.id < id
    requires Clean(Entry(id, x, source, now, false)) && '\t' !in y && '\n' !in y
    ensures ByIdOf(rows + [Entry(id, x + "\t" + y, source, now, false)], id, true)
            == Ok(Entry(id, x, y, source, false))
  {
    var e := Entry(id, x + "\t" + y, source, now, false);
    FindAfterOlder(rows, e);
    TabInTextShiftsColumns(Entry(id, x, source, now, false), x, y);
    assert Entry(id, x, source, now, false).(text := x + "\t" + y) == e;
  }

  /** What runSQL returns for SELECT last_insert_rowid(), trimmed, parses
      back to the id. */
  lemma RowidOutput(n: nat)
    requires n <= MaxInt64
    ensures ParseInt(TrimSpace(ShowNat(n))) == Some(n)
  {
    var s := ShowNat(n);
    TrimSpaceSpec(s);
    assert !IsSpace(s[0]) && !IsSpace(s[|s| - 1]);
    ParseShowNat(n);
  }

  // ---------------------------------------------------------------------
  // The table as an object
  // ---------------------------------------------------------------------

  /** sqliteHistory of main.go with its database file replaced by the
      table it holds. */
  class LegacyHistory {
    var rows: seq<Entry>
    var nextId: int

    ghost predicate Valid()
      reads this
    {
      TableInvariant(rows, nextId)
    }

    constructor ()
      ensures Valid() && rows == [] && nextId == 1
    {
      rows := [];
      nextId := 1;
    }

    /** insert (main.go:351-363): the INSERT stores the sqlQuote literals'
        values, which are the strings passed in; the new id is
        read from SELECT last_insert_rowid() with strconv.ParseInt; the
        entry returned is whatever byID then reads back.  The row stays in
        the table even when that read fails. */
    method Insert(text: string, source: string, now: string, insertOk: bool, selectOk: bool)
        returns (r: Result<Entry, HistoryError>)
      requires Valid()
      modifies this
      ensures Valid()
      ensures !(insertOk && old(nextId) <= MaxInt64) ==>
                r == Err(StorageError) && rows == old(rows) && nextId == old(nextId)
      ensures insertOk && old(nextId) <= MaxInt64 ==>
                && rows == old(rows) + [Entry(old(nextId), text, source, now, false)]
                && nextId == old(nextId) + 1
                && r == ByIdOf(rows, old(nextId), selectOk)
    {
      if !insertOk || nextId > MaxInt64 {
        return Err(StorageError);
      }
      var textLit, sourceLit, nowLit := Quote(text), Quote(source), Quote(now);
      QuoteRoundTrip(text);
      QuoteRoundTrip(source);
      QuoteRoundTrip(now);
      var row := Entry(nextId, Eval(textLit).value, Eval(sourceLit).value, Eval(nowLit).value, false);
      AppendKeepsInvariant(rows, nextId, row);
      rows := rows + [row];
      nextId := nextId + 1;
      var out := TrimSpace(ShowNat(row.id));
      RowidOutput(row.id);
      var id := ParseInt(out).value;
      r := ByID(id, selectOk);
    }

    /** byID (main.go:385-394), through selectRows. */
    method ByID(id: int, sqlOk: bool) returns (r: Result<Entry, HistoryError>)
      ensures r == ByIdOf(rows, id, sqlOk)
    {
      if !sqlOk {
        return Err(StorageError);
      }
      var got := SelectRows(SqliteOutput(SelectedById(rows, id)));
      if |got| == 0 {
        return Err(NotFound);
      }
      r := Ok(got[0]);
    }

    /** latest (main.go:374-383), through selectRows. */
    method Latest(sqlOk: bool) returns (r: Result<Entry, HistoryError>)
      ensures r == LatestOf(rows, sqlOk)
    {
      if !sqlOk {
        return Err(StorageError);
      }
      var got := SelectRows(SqliteOutput(ListOf(rows, 1, "")));
      if |got| == 0 {
        return Err(NoRows);
      }
      r := Ok(got[0]);
    }

    /** list (main.go:396-403), through selectRows. */
    method List(limit: int, search: string, sqlOk: bool) returns (r: Result<seq<Entry>, HistoryError>)
      ensures r == ListRead(rows, limit, search, sqlOk)
    {
      if !sqlOk {
        return Err(StorageError);
      }
      var got := SelectRows(SqliteOutput(ListOf(rows, limit, search)));
      r := Ok(got);
    }

    /** setPinned (main.go:365-372): the same UPDATE as the newer table. */
    method SetPinned(id: int, pinned: bool, sqlOk: bool) returns (r: Result<(), HistoryError>)
      requires Valid()
      modifies this
      ensures Valid() && nextId == old(nextId)
      ensures r.Ok? <==> sqlOk
      ensures r.Err? ==> r.error == StorageError
      ensures rows == if sqlOk then PinRows(old(rows), id, pinned) else old(rows)
    {
      if !sqlOk {
        return Err(StorageError);
      }
      PinKeepsInvariant(rows, nextId, id, pinned);
      rows := PinRows(rows, id, pinned);
      r := Ok(());
    }
  }

  /** The two inserts of TestHistorySearchAndPin on a fresh table: both
      rows are stored unpinned with ids 1 and 2, and the first insert
      returns the first row. */
  method InsertTwo(t1: string, t2: string) returns (h: LegacyHistory, first: Result<Entry, HistoryError>)
    requires '\t' !in t1 && '\n' !in t1
    ensures fresh(h) && h.Valid()
    ensures h.rows == [Entry(1, "alpha snippet", "src1", t1, false), Entry(2, "beta note", "src2", t2, false)]
    ensures first == Ok(Entry(1, "alpha snippet", "src1", t1, false))
  {
    h := new LegacyHistory();
    var a := Entry(1, "alpha snippet", "src1", t1, false);
    var b := Entry(2, "beta note", "src2", t2, false);
    first := h.Insert("alpha snippet", "src1", t1, true, true);
    assert h.rows == [a] && h.nextId == 2 by {
      assert [] + [a] == [a];
    }
    AlphaInsertReadsBack(t1);
    var _ := h.Insert("beta note", "src2", t2, true, true);
  }

  /** TestHistorySearchAndPin (main_test.go:37-64) step by step on a fresh
      table: two inserts, pin the first, search "alpha". */
  method SearchAndPinScenario(t1: string, t2: string) returns (got: Result<seq<Entry>, HistoryError>)
    requires '\t' !in t1 && '\n' !in t1 && '\t' !in t2 && '\n' !in t2
    ensures got == Ok([Entry(1, "alpha snippet", "src1", t1, true)])
  {
    var h, first := InsertTwo(t1, t2);
    var a := Entry(1, "alpha snippet", "src1", t1, false);
    var b := Entry(2, "beta note", "src2", t2, false);
    var _ := h.SetPinned(first.value.id, true, true);
    PinFirstOfTwo(a, b);
    SearchAlphaReadsPinned(t1, t2);
    got := h.List(10, "alpha", true);
  }

  // ---------------------------------------------------------------------
  // The handlers
  // ---------------------------------------------------------------------

  /** What the older handleClipboard passes to insert (main.go:119-128):
      the trimmed text, refused when empty, and the source with a blank one
      replaced by "unknown"; nothing is sanitised. */
  function LegacyInsertArgs(f: Fields): (r: Option<Fields>)
    ensures r.None? <==> AllSpace(f.text)
    ensures r.Some? ==> r.value.text == TrimSpace(f.text) && r.value.source == SourceOrUnknown(f.source)
  {
    TrimSpaceSpec(f.text);
    var text := TrimSpace(f.text);
    if text == "" then None else Some(Fields(text, SourceOrUnknown(f.source)))
  }

  /** The newer handler passes the same values, sanitised. */
  lemma NewerArgsAreSanitisedLegacyArgs(f: Fields)
    ensures InsertArgs(f) == match LegacyInsertArgs(f)
                             case None => None
                             case Some(a) => Some(Fields(SanitizeForDB(a.text), SanitizeForDB(a.source)))
  {
  }

  /** TestAPIClipboardValidation (main_test.go:21-35): empty text is
      refused. */
  lemma EmptyTextRefused(source: string)
    ensures LegacyInsertArgs(Fields("", source)).None?
  {
  }

  /** The older server: the cache and the table. */
  class LegacyApp {
    const store: Store.Store
    const history: LegacyHistory

    /** runServer (main.go:84-87): the cache starts with latest when that
        call succeeds. */
    constructor (history: LegacyHistory, latestOk: bool)
      ensures this.history == history && fresh(store)
      ensures store.latest == match LatestOf(history.rows, latestOk)
                              case Ok(e) => e
                              case Err(_) => ZeroEntry
    {
      this.history := history;
      store := new Store.Store();
      new;
      var latest := history.Latest(latestOk);
      if latest.Ok? {
        store.Set(latest.value);
      }
    }

    ghost predicate Valid()
      reads this, history
    {
      history.Valid()
    }

    /** The POST branch of handleClipboard (main.go:110-136): a JSON body
        only; trim, refuse empty text, default the source, insert, and cache
        the entry insert returns.  When the INSERT ran but the read-back
        failed, the row is stored and the answer is still 500. */
    method Post(json: Option<Fields>, now: string, insertOk: bool, selectOk: bool) returns (resp: Response)
      requires Valid()
      modifies store, history
      ensures Valid()
      ensures json.None? ==> resp == Response(400, Message("invalid JSON body"))
      ensures json.Some? && LegacyInsertArgs(json.value).None? ==> resp == Response(400, Message("text is required"))
      ensures json.None? || LegacyInsertArgs(json.value).None? || !(insertOk && old(history.nextId) <= MaxInt64) ==>
                store.latest == old(store.latest) && history.rows == old(history.rows) && history.nextId == old(history.nextId)
      ensures json.Some? && LegacyInsertArgs(json.value).Some? && !(insertOk && old(history.nextId) <= MaxInt64) ==>
                resp == Response(500, Message("failed to save clipboard"))
      ensures json.Some? && LegacyInsertArgs(json.value).Some? && insertOk && old(history.nextId) <= MaxInt64 ==>
                var a := LegacyInsertArgs(json.value).value;
                && history.rows == old(history.rows) + [Entry(old(history.nextId), a.text, a.source, now, false)]
                && history.nextId == old(history.nextId) + 1
                && match ByIdOf(history.rows, old(history.nextId), selectOk)
                   case Ok(e) => resp == Response(201, One(e)) && store.latest == e
                   case Err(_) => resp == Response(500, Message("failed to save clipboard")) && store.latest == old(store.latest)
    {
      if json.None? {
        return Response(400, Message("invalid JSON body"));
      }
      var text := TrimSpace(json.value.text);
      TrimSpaceSpec(json.value.text);
      if text == "" {
        return Response(400, Message("text is required"));
      }
      var source := json.value.source;
      if TrimSpace(source) == "" {
        source := "unknown";
      }
      var entry := history.Insert(text, source, now, insertOk, selectOk);
      if entry.Err? {
        return Response(500, Message("failed to save clipboard"));
      }
      store.Set(entry.value);
      resp := Response(201, One(entry.value));
    }

    /** handleClipboard (main.go:108-148): POST as Post; GET answers the
        cached entry, or 404 when its text is blank; anything else is 405. */
    method HandleClipboard(httpMethod: string, json: Option<Fields>, now: string, insertOk: bool, selectOk: bool)
        returns (resp: Response)
      requires Valid()
      modifies store, history
      ensures Valid()
      ensures httpMethod != "POST" ==>
                store.latest == old(store.latest) && history.rows == old(history.rows) && history.nextId == old(history.nextId)
      ensures httpMethod == "GET" ==>
                resp == if TrimSpace(store.latest.text) == "" then Response(404, Message("clipboard is empty"))
                        else Response(200, One(store.latest))
      ensures httpMethod != "POST" && httpMethod != "GET" ==> resp == Response(405, Message("method not allowed"))
      ensures httpMethod == "POST" && json.None? ==> resp == Response(400, Message("invalid JSON body"))
      ensures httpMethod == "POST" && json.Some? && LegacyInsertArgs(json.value).None? ==>
                resp == Response(400, Message("text is required"))
      ensures httpMethod == "POST" && (json.None? || LegacyInsertArgs(json.value).None? || !(insertOk && old(history.nextId) <= MaxInt64)) ==>
                store.latest == old(store.latest) && history.rows == old(history.rows) && history.nextId == old(history.nextId)
      ensures httpMethod == "POST" && json.Some? && LegacyInsertArgs(json.value).Some? && !(insertOk && old(history.nextId) <= MaxInt64) ==>
                resp == Response(500, Message("failed to save clipboard"))
      ensures httpMethod == "POST" && json.Some? && LegacyInsertArgs(json.value).Some? && insertOk && old(history.nextId) <= MaxInt64 ==>
                var a := LegacyInsertArgs(json.value).value;
                && history.rows == old(history.rows) + [Entry(old(history.nextId), a.text, a.source, now, false)]
                && history.nextId == old(history.nextId) + 1
                && match ByIdOf(history.rows, old(history.nextId), selectOk)
                   case Ok(e) => resp == Response(201, One(e)) && store.latest == e
                   case Err(_) => resp == Response(500, Message("failed to save clipboard")) && store.latest == old(store.latest)
    {
      if httpMethod == "POST" {
        resp := Post(json, now, insertOk, selectOk);
      } else if httpMethod == "GET" {
        var latest := store.Get();
        if TrimSpace(latest.text) == "" {
          return Response(404, Message("clipboard is empty"));
        }
        resp := Response(200, One(latest));
      } else {
        resp := Response(405, Message("method not allowed"));
      }
    }

    /** handleHistory (main.go:150-174): the same limit rule as the newer
        handler; the rows are those list reads back. */
    method HandleHistory(httpMethod: string, limitRaw: string, qRaw: string, sqlOk: bool) returns (resp: Response)
      ensures httpMethod != "GET" ==> resp == Response(405, Message("method not allowed"))
      ensures httpMethod == "GET" && LimitParam(limitRaw).None? ==> resp == Response(400, Message("invalid limit"))
      ensures httpMethod == "GET" && LimitParam(limitRaw).Some? ==>
                resp == match ListRead(history.rows, LimitParam(limitRaw).value, TrimSpace(qRaw), sqlOk)
                        case Ok(items) => Response(200, Many(items))
                        case Err(_) => Response(500, Message("failed to read history"))
    {
      if httpMethod != "GET" {
        return Response(405, Message("method not allowed"));
      }
      var limit := DefaultLimit;
      var raw := TrimSpace(limitRaw);
      if raw != "" {
        var parsed := ParseInt(raw);
        if parsed.None? || parsed.value < 1 || parsed.value > MaxLimit {
          return Response(400, Message("invalid limit"));
        }
        limit := parsed.value;
      }
      var query := TrimSpace(qRaw);
      var items := history.List(limit, query, sqlOk);
      if items.Err? {
        return Response(500, Message("failed to read history"));
      }
      resp := Response(200, Many(items.value));
    }

    /** handlePin (main.go:176-205): id <= 0 is 400, a failed UPDATE 500,
        a failed read-back 404. */
    method HandlePin(httpMethod: string, body: Option<PinRequest>, updateOk: bool, selectOk: bool) returns (resp: Response)
      requires Valid()
      modifies history
      ensures Valid() && history.nextId == old(history.nextId)
      ensures !(httpMethod == "POST" && body.Some? && body.value.id > 0 && updateOk) ==> history.rows == old(history.rows)
      ensures httpMethod != "POST" ==> resp == Response(405, Message("method not allowed"))
      ensures httpMethod == "POST" && body.None? ==> resp == Response(400, Message("invalid JSON body"))
      ensures httpMethod == "POST" && body.Some? && body.value.id <= 0 ==> resp == Response(400, Message("id is required"))
      ensures httpMethod == "POST" && body.Some? && body.value.id > 0 ==>
                if !updateOk then resp == Response(500, Message("failed to update pin"))
                else
                  && history.rows == PinRows(old(history.rows), body.value.id, body.value.pinned)
                  && resp == match ByIdOf(history.rows, body.value.id, selectOk)
                             case Ok(e) => Response(200, One(e))
                             case Err(_) => Response(404, Message("entry not found"))
    {
      if httpMethod != "POST" {
        return Response(405, Message("method not allowed"));
      }
      if body.None? {
        return Response(400, Message("invalid JSON body"));
      }
      if body.value.id <= 0 {
        return Response(400, Message("id is required"));
      }
      var updated := history.SetPinned(body.value.id, body.value.pinned, updateOk);
      if updated.Err? {
        return Response(500, Message("failed to update pin"));
      }
      var entry := history.ByID(body.value.id, selectOk);
      if entry.Err? {
        return Response(404, Message("entry not found"));
      }
      resp := Response(200, One(entry.value));
    }
  }
}
