/** The HTTP handlers of the newer server (internal/server/handlers.go) and
    the startup seeding of the cache (internal/server/server.go:28-31).
    Request decoding is abstracted: each decoder's result is a parameter
    (None when the body does not decode), and a response is its status code
    with the body the handler chooses.  Every handler is a method of App,
    which owns the cache and the history table. */
module Handlers {
  import opened Wrappers
  import opened GoStrings
  import opened Models
  import opened Sanitize
  import opened History
  import Store

  /** The text and source fields of a clipboard POST. */
  datatype Fields = Fields(text: string, source: string)

  /** The pin request body. */
  datatype PinRequest = PinRequest(id: int, pinned: bool)

  /** What a handler writes: an http.Error message, one entry, a list of
      entries, or nothing (204). */
  datatype Body = Message(msg: string) | One(entry: Entry) | Many(entries: seq<Entry>) | NoBody

  datatype Response = Response(status: int, body: Body)

  const FormContentType: string := "application/x-www-form-urlencoded"
  const DefaultLimit: int := 50
  const MaxLimit: int := 200

  /** The body decoder chosen by the Content-Type (lines 42-63): a form body
      when the type starts with application/x-www-form-urlencoded, JSON
      otherwise; each failure has its own message. */
  function DecodeClipboard(contentType: string, form: Option<Fields>, json: Option<Fields>): (r: Result<Fields, string>)
    ensures r.Err? ==> r.error == "invalid form body" || r.error == "invalid JSON body"
    ensures HasPrefix(contentType, FormContentType) ==> (r.Ok? <==> form.Some?) && (r.Ok? ==> r.value == form.value)
    ensures !HasPrefix(contentType, FormContentType) ==> (r.Ok? <==> json.Some?) && (r.Ok? ==> r.value == json.value)
  {
    if HasPrefix(contentType, FormContentType) then
      if form.None? then Err("invalid form body") else Ok(form.value)
    else
      if json.None? then Err("invalid JSON body") else Ok(json.value)
  }

  /** The source the POST handler stores before sanitising: "unknown" for a
      blank source, the source as given (not trimmed) otherwise. */
  function SourceOrUnknown(source: string): string {
    if TrimSpace(source) == "" then "unknown" else source
  }

  /** What handleClipboard passes to Insert for a decoded body (lines 64-74),
      or None when the trimmed text is empty and the request is refused. */
  function InsertArgs(f: Fields): Option<Fields> {
    var text := TrimSpace(f.text);
    if text == "" then None else Some(Fields(SanitizeForDB(text), SanitizeForDB(SourceOrUnknown(f.source))))
  }

  /** A POST is refused exactly when its text is all white space. */
  lemma InsertArgsRefusesBlank(f: Fields)
    ensures InsertArgs(f).None? <==> AllSpace(f.text)
  {
    TrimSpaceSpec(f.text);
  }

  /** Insert receives sanitised values: no NUL and no CR in either field,
      and passing them through sanitizeForDB again changes nothing. */
  lemma InsertArgsAreSanitized(f: Fields)
    requires InsertArgs(f).Some?
    ensures var a := InsertArgs(f).value;
            && '\0' !in a.text && '\r' !in a.text
            && '\0' !in a.source && '\r' !in a.source
            && SanitizeForDB(a.text) == a.text && SanitizeForDB(a.source) == a.source
  {
    var text := TrimSpace(f.text);
    var src := SourceOrUnknown(f.source);
    SanitizeIsLineEndsOfNulFree(text);
    SanitizeIsLineEndsOfNulFree(src);
    SanitizeIdempotent(text);
    SanitizeIdempotent(src);
  }

  /** A blank source is stored as "unknown"; any other source is kept as
      given, untrimmed, up to sanitising (lines 69-73). */
  lemma SourceDefaulting(f: Fields)
    requires !AllSpace(f.text)
    ensures InsertArgs(f).Some?
    ensures AllSpace(f.source) ==> InsertArgs(f).value.source == "unknown"
    ensures !AllSpace(f.source) ==> InsertArgs(f).value.source == SanitizeForDB(f.source)
  {
    TrimSpaceSpec(f.text);
    TrimSpaceSpec(f.source);
    SanitizeKeepsClean("unknown");
  }

  /** The emptiness check comes before sanitising, so text made only of NUL
      passes it and is stored empty. */
  lemma NulOnlyTextIsStoredEmpty(source: string)
    ensures InsertArgs(Fields("\0", source)).Some?
    ensures InsertArgs(Fields("\0", source)).value.text == ""
  {
    assert !IsSpace('\0');
    TrimSpaceSpec("\0");
    assert TrimSpace("\0") == "\0";
    assert RemoveNul("\0") == "" by {
      assert "\0"[1..] == "";
    }
  }

  /** The limit query parameter of handleHistory (lines 99-107): 50 when
      absent or blank, otherwise the trimmed text must parse as an integer
      between 1 and 200. */
  function LimitParam(raw: string): (r: Option<int>)
    ensures r.Some? ==> 1 <= r.value <= MaxLimit
    ensures TrimSpace(raw) == "" ==> r == Some(DefaultLimit)
    ensures TrimSpace(raw) != "" ==>
              (r.Some? <==> ParseInt(TrimSpace(raw)).Some? && 1 <= ParseInt(TrimSpace(raw)).value <= MaxLimit)
    ensures TrimSpace(raw) != "" && r.Some? ==> r == ParseInt(TrimSpace(raw))
  {
    var t := TrimSpace(raw);
    if t == "" then Some(DefaultLimit)
    else
      match ParseInt(t)
      case None => None
      case Some(n) => if n < 1 || n > MaxLimit then None else Some(n)
  }

  /** Every limit from 1 to 200 written in decimal is accepted as is. */
  lemma LimitParamAcceptsDecimal(n: int)
    requires 1 <= n <= MaxLimit
    ensures LimitParam(ShowNat(n)) == Some(n)
  {
    var s := ShowNat(n);
    ParseShowNat(n);
    TrimSpaceSpec(s);
    assert !IsSpace(s[0]) && !IsSpace(s[|s| - 1]);
  }

  /** The outcome of a clipboard POST whose body decoded to d, when the
      table would give the next row the id nextId and its sqlite3 run
      succeeds exactly when sqlOk: the entry stored and cached, or the
      response that refuses the request. */
  function PostOutcome(d: Result<Fields, string>, nextId: int, now: string, sqlOk: bool): Result<Entry, Response> {
    match d
    case Err(msg) => Err(Response(400, Message(msg)))
    case Ok(f) =>
      match InsertArgs(f)
      case None => Err(Response(400, Message("text is required")))
      case Some(a) =>
        if sqlOk && nextId <= MaxInt64 then Ok(Entry(nextId, a.text, a.source, now, false))
        else Err(Response(500, Message("failed to save clipboard")))
  }

  /** A POST stores a row exactly when its body decodes, its text is not
      all white space and the INSERT succeeds; the row is new, unpinned,
      and holds the trimmed, sanitised text. */
  lemma PostStoresExactly(d: Result<Fields, string>, nextId: int, now: string, sqlOk: bool)
    ensures PostOutcome(d, nextId, now, sqlOk).Ok? <==> d.Ok? && !AllSpace(d.value.text) && sqlOk && nextId <= MaxInt64
    ensures PostOutcome(d, nextId, now, sqlOk).Ok? ==>
              var e := PostOutcome(d, nextId, now, sqlOk).value;
              && e.id == nextId && !e.pinned && e.updatedAt == now
              && e.text == SanitizeForDB(TrimSpace(d.value.text))
              && '\0' !in e.text && '\r' !in e.text && '\0' !in e.source && '\r' !in e.source
  {
    if d.Ok? {
      InsertArgsRefusesBlank(d.value);
      if InsertArgs(d.value).Some? {
        InsertArgsAreSanitized(d.value);
      }
    }
  }

  /** A refused POST answers 400 for a body problem and 500 for a storage
      failure, never anything else. */
  lemma PostRefusalStatus(d: Result<Fields, string>, nextId: int, now: string, sqlOk: bool)
    ensures PostOutcome(d, nextId, now, sqlOk).Err? ==>
              var st := PostOutcome(d, nextId, now, sqlOk).error.status;
              && (st == 400 <==> d.Err? || AllSpace(d.value.text))
              && (st == 500 <==> d.Ok? && !AllSpace(d.value.text) && !(sqlOk && nextId <= MaxInt64))
  {
    if d.Ok? {
      InsertArgsRefusesBlank(d.value);
    }
  }

  /** Lines 64-73 of handleClipboard step by step: trim the text, refuse
      it when empty, default a blank source, sanitise both. */
  method Prepare(f: Fields) returns (r: Option<Fields>)
    ensures r == InsertArgs(f)
  {
    var text := TrimSpace(f.text);
    if text == "" {
      return None;
    }
    var source := f.source;
    if TrimSpace(source) == "" {
      source := "unknown";
    }
    text := SanitizeForDB(text);
    source := SanitizeForDB(source);
    r := Some(Fields(text, source));
  }

  /** The server: the cache and the history table. */
  class App {
    const store: Store.Store
    const history: SqliteHistory

    /** Run (server.go:26-31): the cache starts with History.Latest when
        that call succeeds, and with the zero entry otherwise. */
    constructor (history: SqliteHistory, latestOk: bool)
      requires history.Valid()
      ensures this.history == history && fresh(store)
      ensures latestOk && history.rows != [] ==>
                && store.latest in history.rows
                && forall f :: f in history.rows && f != store.latest ==> Before(store.latest, f)
      ensures !(latestOk && history.rows != []) ==> store.latest == ZeroEntry
    {
      this.history := history;
      store := new Store.Store();
      new;
      var latest := history.Latest(latestOk);
      if latest.Ok? {
        store.Set(latest.value);
      }
    }

    ghost predicate Valid()
      reads this, history
    {
      history.Valid()
    }

    /** The POST branch of handleClipboard (lines 40-81): decode, trim,
        refuse empty text, default the source, sanitise, insert, and only
        then cache the inserted entry. */
    method Post(contentType: string, form: Option<Fields>, json: Option<Fields>, now: string, sqlOk: bool)
        returns (resp: Response)
      requires Valid()
      modifies store, history
      ensures Valid()
      ensures match PostOutcome(DecodeClipboard(contentType, form, json), old(history.nextId), now, sqlOk)
              case Err(refused) => resp == refused && unchanged(store) && history.rows == old(history.rows) && history.nextId == old(history.nextId)
              case Ok(e) =>
                && resp == Response(201, One(e))
                && store.latest == e
                && history.rows == old(history.rows) + [e]
                && history.nextId == old(history.nextId) + 1
    {
      var decoded := DecodeClipboard(contentType, form, json);
      if decoded.Err? {
        return Response(400, Message(decoded.error));
      }
      var args := Prepare(decoded.value);
      if args.None? {
        return Response(400, Message("text is required"));
      }
      var text, source := args.value.text, args.value.source;
      InsertArgsAreSanitized(decoded.value);
      var entry := history.Insert(text, source, now, sqlOk);
      if entry.Err? {
        return Response(500, Message("failed to save clipboard"));
      }
      store.Set(entry.value);
      resp := Response(201, One(entry.value));
    }

    /** handleClipboard (lines 38-92): POST as Post; GET answers the cached
        entry, or 404 when its text is blank; anything else is 405. */
    method HandleClipboard(httpMethod: string, contentType: string, form: Option<Fields>, json: Option<Fields>,
                           now: string, sqlOk: bool) returns (resp: Response)
      requires Valid()
      modifies store, history
      ensures Valid()
      ensures httpMethod != "POST" ==> unchanged(store, history)
      ensures httpMethod == "GET" ==>
                resp == if TrimSpace(store.latest.text) == "" then Response(404, Message("clipboard is empty"))
                        else Response(200, One(store.latest))
      ensures httpMethod != "POST" && httpMethod != "GET" ==> resp == Response(405, Message("method not allowed"))
      ensures httpMethod == "POST" ==>
                match PostOutcome(DecodeClipboard(contentType, form, json), old(history.nextId), now, sqlOk)
                case Err(refused) => resp == refused && unchanged(store) && history.rows == old(history.rows) && history.nextId == old(history.nextId)
                case Ok(e) =>
                  && resp == Response(201, One(e))
                  && store.latest == e
                  && history.rows == old(history.rows) + [e]
                  && history.nextId == old(history.nextId) + 1
    {
      if httpMethod == "POST" {
        resp := Post(contentType, form, json, now, sqlOk);
      } else if httpMethod == "GET" {
        var latest := store.Get();
        if TrimSpace(latest.text) == "" {
          return Response(404, Message("clipboard is empty"));
        }
        resp := Response(200, One(latest));
      } else {
        resp := Response(405, Message("method not allowed"));
      }
    }

    /** handleHistory (lines 94-115): validate limit, trim q, then List. */
    method HandleHistory(httpMethod: string, limitRaw: string, qRaw: string, sqlOk: bool) returns (resp: Response)
      requires Valid()
      ensures httpMethod != "GET" ==> resp == Response(405, Message("method not allowed"))
      ensures httpMethod == "GET" && LimitParam(limitRaw).None? ==> resp == Response(400, Message("invalid limit"))
      ensures httpMethod == "GET" && LimitParam(limitRaw).Some? ==>
                resp == if sqlOk then Response(200, Many(ListOf(history.rows, LimitParam(limitRaw).value, TrimSpace(qRaw))))
                        else Response(500, Message("failed to read history"))
    {
      if httpMethod != "GET" {
        return Response(405, Message("method not allowed"));
      }
      var limit := DefaultLimit;
      var raw := TrimSpace(limitRaw);
      if raw != "" {
        var parsed := ParseInt(raw);
        if parsed.None? || parsed.value < 1 || parsed.value > MaxLimit {
          return Response(400, Message("invalid limit"));
        }
        limit := parsed.value;
      }
      var query := TrimSpace(qRaw);
      var items := history.List(limit, query, sqlOk);
      if items.Err? {
        return Response(500, Message("failed to read history"));
      }
      resp := Response(200, Many(items.value));
    }

    /** handlePin (lines 117-144): id <= 0 is refused before the table is
        touched; an UPDATE failure is 500; the 404 can only come from the
        ByID that follows.  The cache is not updated. */
    method HandlePin(httpMethod: string, body: Option<PinRequest>, updateOk: bool, selectOk: bool) returns (resp: Response)
      requires Valid()
      modifies history
      ensures Valid()
      ensures !(httpMethod == "POST" && body.Some? && body.value.id > 0 && updateOk) ==>
                history.rows == old(history.rows) && history.nextId == old(history.nextId)
      ensures httpMethod != "POST" ==> resp == Response(405, Message("method not allowed"))
      ensures httpMethod == "POST" && body.None? ==> resp == Response(400, Message("invalid JSON body"))
      ensures httpMethod == "POST" && body.Some? && body.value.id <= 0 ==> resp == Response(400, Message("id is required"))
      ensures httpMethod == "POST" && body.Some? && body.value.id > 0 ==>
                var id := body.value.id;
                if !updateOk then resp == Response(500, Message("failed to update pin"))
                else
                  && history.rows == PinRows(old(history.rows), id, body.value.pinned)
                  && (match FindById(history.rows, id)
                      case Some(e) => resp == (if selectOk then Response(200, One(e)) else Response(404, Message("entry not found")))
                      case None => resp == Response(404, Message("entry not found")))
    {
      if httpMethod != "POST" {
        return Response(405, Message("method not allowed"));
      }
      if body.None? {
        return Response(400, Message("invalid JSON body"));
      }
      if body.value.id <= 0 {
        return Response(400, Message("id is required"));
      }
      var updated := history.SetPinned(body.value.id, body.value.pinned, updateOk);
      if updated.Err? {
        return Response(500, Message("failed to update pin"));
      }
      var entry := history.ByID(body.value.id, selectOk);
      if entry.Err? {
        return Response(404, Message("entry not found"));
      }
      resp := Response(200, One(entry.value));
    }

    /** handleDelete (lines 146-167): POST or DELETE; any positive id whose
        DELETE runs gives 204, whether or not the row existed.  The cache is
        not updated. */
    method HandleDelete(httpMethod: string, body: Option<int>, sqlOk: bool) returns (resp: Response)
      requires Valid()
      modifies history
      ensures Valid()
      ensures !((httpMethod == "POST" || httpMethod == "DELETE") && body.Some? && body.value > 0 && sqlOk) ==>
                history.rows == old(history.rows) && history.nextId == old(history.nextId)
      ensures httpMethod != "POST" && httpMethod != "DELETE" ==> resp == Response(405, Message("method not allowed"))
      ensures (httpMethod == "POST" || httpMethod == "DELETE") ==>
                resp == if body.None? then Response(400, Message("invalid JSON body"))
                        else if body.value <= 0 then Response(400, Message("id is required"))
                        else if !sqlOk then Response(500, Message("failed to delete"))
                        else Response(204, NoBody)
      ensures (httpMethod == "POST" || httpMethod == "DELETE") && body.Some? && body.value > 0 && sqlOk ==>
                history.rows == DeleteRows(old(history.rows), body.value)
    {
      if httpMethod != "POST" && httpMethod != "DELETE" {
        return Response(405, Message("method not allowed"));
      }
      if body.None? {
        return Response(400, Message("invalid JSON body"));
      }
      if body.value <= 0 {
        return Response(400, Message("id is required"));
      }
      var deleted := history.Delete(body.value, sqlOk);
      if deleted.Err? {
        return Response(500, Message("failed to delete"));
      }
      resp := Response(204, NoBody);
    }
  }

  /** The cache holds the zero entry until the first successful POST, and
      GET answers 404 for it. */
  lemma ZeroEntryIsEmpty()
    ensures TrimSpace(ZeroEntry.text) == ""
  {
  }
}
