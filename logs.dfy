/** The in-memory request log and the logging middleware
    (internal/server/logs.go) and the GET /api/logs handler
    (internal/server/handlers.go:169-179).  The read-write mutex, the
    clock and net.SplitHostPort are left out: the timestamp and the host
    part of the remote address are parameters. */
module Logs {
  import opened Wrappers
  import opened Seqs

  /** One byte of a request or response body. */
  newtype byte = x: int | 0 <= x < 256

  /** The most entries the log keeps (maxRequestLogs). */
  const MaxRequestLogs: nat := 500

  /** The most bytes of a body a log entry keeps (maxBodyLogSize, 64 KiB). */
  const MaxBodyLogSize: nat := 64 * 1024

  /** RequestLogEntry.  Bodies are kept as bytes: Go's string(b) only
      reinterprets them. */
  datatype LogEntry = LogEntry(httpMethod: string, path: string, status: int, remoteAddr: string,
                               timestamp: string, requestBody: seq<byte>, responseBody: seq<byte>)

  /** The reference for the log's contents: the last MaxRequestLogs entries
      of everything ever added, or all of them while there are fewer. */
  function Window<T>(h: seq<T>): (r: seq<T>)
    ensures |r| <= MaxRequestLogs
    ensures |h| <= MaxRequestLogs ==> r == h
    ensures |h| > MaxRequestLogs ==> |r| == MaxRequestLogs
    ensures r == h[|h| - |r|..]
  {
    if |h| <= MaxRequestLogs then h else h[|h| - MaxRequestLogs..]
  }

  /** The buffer after one Add of e: the new entry is last, the buffer never
      exceeds MaxRequestLogs, only the oldest entry is dropped on overflow and
      the survivors keep their order, and below capacity it grows by exactly
      e. */
  function Appended(entries: seq<LogEntry>, e: LogEntry): (r: seq<LogEntry>)
    ensures |r| <= MaxRequestLogs
    ensures 0 < |r| <= |entries| + 1 && r[|r| - 1] == e
    ensures r == (entries + [e])[|entries| + 1 - |r|..]
    ensures |entries| < MaxRequestLogs ==> r == entries + [e]
    ensures |entries| >= MaxRequestLogs ==> |r| == MaxRequestLogs
  {
    var s := entries + [e];
    if |s| > MaxRequestLogs then s[|s| - MaxRequestLogs..] else s
  }

  /** One Add on a window of the history is the window of the history with
      e added. */
  lemma AppendedWindow(h: seq<LogEntry>, e: LogEntry)
    ensures Appended(Window(h), e) == Window(h + [e])
  {
    if |h| >= MaxRequestLogs {
      var w := Window(h);
      assert Appended(w, e) == (w + [e])[1..];
      assert (w + [e])[1..] == (h + [e])[|h| + 1 - MaxRequestLogs..];
    }
  }

  /** Adds every entry of xs in order. */
  function AddAll(entries: seq<LogEntry>, xs: seq<LogEntry>): seq<LogEntry>
    decreases |xs|
  {
    if xs == [] then entries else AddAll(Appended(entries, xs[0]), xs[1..])
  }

  /** Any run of Adds on a window of the history leaves the window of the
      extended history. */
  lemma {:induction false} AddAllWindow(h: seq<LogEntry>, xs: seq<LogEntry>)
    ensures AddAll(Window(h), xs) == Window(h + xs)
    decreases |xs|
  {
    if xs != [] {
      var h' := h + [xs[0]];
      calc {
        AddAll(Window(h), xs);
        AddAll(Appended(Window(h), xs[0]), xs[1..]);
        { AppendedWindow(h, xs[0]); }
        AddAll(Window(h'), xs[1..]);
        { AddAllWindow(h', xs[1..]); }
        Window(h' + xs[1..]);
        { assert h' + xs[1..] == h + xs; }
        Window(h + xs);
      }
    }
  }

  /** Starting from the empty log, the buffer after any run of Adds holds
      exactly the last MaxRequestLogs entries added, oldest first. */
  lemma AddAllFromEmpty(xs: seq<LogEntry>)
    ensures AddAll([], xs) == Window(xs)
    ensures |AddAll([], xs)| <= MaxRequestLogs
  {
    AddAllWindow([], xs);
    assert [] + xs == xs;
  }

  /** List's newest-first order: right after Add(e), the listing starts
      with e. */
  lemma NewestListedFirst(entries: seq<LogEntry>, e: LogEntry)
    ensures Reverse(Appended(entries, e))[0] == e
  {
    ReverseAt(Appended(entries, e), 0);
  }

  /** RequestLogs: the buffer of recent entries, oldest first. */
  class RequestLogs {
    var entries: seq<LogEntry>

    predicate Valid()
      reads this
    {
      |entries| <= MaxRequestLogs
    }

    /** NewRequestLogs: an empty log. */
    constructor ()
      ensures entries == [] && Valid()
    {
      entries := [];
    }

    /** Add appends e, then reslices to the last MaxRequestLogs entries. */
    method Add(e: LogEntry)
      modifies this
      ensures entries == Appended(old(entries), e)
      ensures Valid()
    {
      entries := entries + [e];
      if |entries| > MaxRequestLogs {
        entries := entries[|entries| - MaxRequestLogs..];
      }
    }

    /** List copies the entries into a fresh array and reverses the copy:
        the result is newest first, of the same length, and the stored
        entries are not modified (no modifies clause). */
    method List() returns (out: seq<LogEntry>)
      ensures out == Reverse(entries)
    {
      var a := new LogEntry[|entries|];
      forall k | 0 <= k < a.Length {
        a[k] := entries[k];
      }
      assert a[..] == entries;
      ReverseInPlace(a);
      out := a[..];
    }
  }

  /** truncateForLog: the first min(|b|, max) bytes of b, which is b itself
      when it is no longer than max and empty when b is empty.  A negative
      max would slice out of range in Go, so max is a nat. */
  function TruncateForLog(b: seq<byte>, max: nat): (r: seq<byte>)
    ensures |b| <= max ==> r == b
    ensures |b| > max ==> |r| == max
    ensures r == b[..|r|]
  {
    if |b| == 0 then []
    else if |b| > max then b[..max]
    else b
  }

  /** Truncating twice to the same bound changes nothing more. */
  lemma TruncateIdempotent(b: seq<byte>, max: nat)
    ensures TruncateForLog(TruncateForLog(b, max), max) == TruncateForLog(b, max)
  {
  }

  /** responseRecorder: the status code and the bytes the wrapped handler
      produced, held back until the handler returns. */
  class ResponseRecorder {
    var status: int
    var buf: seq<byte>

    /** The middleware starts the recorder at 200 with an empty buffer. */
    constructor (status: int)
      ensures this.status == status && buf == []
    {
      this.status := status;
      buf := [];
    }

    /** WriteHeader only records the code; nothing is sent. */
    method WriteHeader(code: int)
      modifies this
      ensures status == code && buf == old(buf)
    {
      status := code;
    }

    /** Write only appends to the buffer and reports every byte as written
        (bytes.Buffer.Write never fails). */
    method Write(p: seq<byte>) returns (n: int)
      modifies this
      ensures buf == old(buf) + p && status == old(status)
      ensures n == |p|
    {
      buf := buf + p;
      n := |p|;
    }

    /** Status: the recorded code, with 0 standing for 200; never 0. */
    function Status(): (r: int)
      reads this
      ensures r != 0
      ensures status != 0 ==> r == status
      ensures status == 0 ==> r == 200
    {
      if status == 0 then 200 else status
    }
  }

  /** What the request carries into the middleware; body None is a nil
      r.Body. */
  datatype Request = Request(httpMethod: string, path: string, remoteAddr: string, body: Option<seq<byte>>)

  /** One call the wrapped handler makes on the writer it is given. */
  datatype Action = WriteHeaderCall(code: int) | WriteCall(p: seq<byte>)

  /** The code a recorder that started at init holds after acts: the last
      WriteHeader wins. */
  function RecordedStatus(acts: seq<Action>, init: int): int
  {
    if acts == [] then init
    else match acts[|acts| - 1]
      case WriteHeaderCall(c) => c
      case WriteCall(_) => RecordedStatus(acts[..|acts| - 1], init)
  }

  /** The bytes a recorder holds after acts: every write, in order. */
  function Written(acts: seq<Action>): seq<byte>
  {
    if acts == [] then []
    else Written(acts[..|acts| - 1]) + (if acts[|acts| - 1].WriteCall? then acts[|acts| - 1].p else [])
  }

  /** Written distributes over consecutive runs of calls. */
  lemma {:induction false} WrittenAppend(a: seq<Action>, b: seq<Action>)
    ensures Written(a + b) == Written(a) + Written(b)
    decreases |b|
  {
    if b == [] {
      assert a + b == a;
    } else {
      assert (a + b)[..|a + b| - 1] == a + b[..|b| - 1];
      WrittenAppend(a, b[..|b| - 1]);
    }
  }

  /** A run of calls without WriteHeader leaves the initial code. */
  lemma {:induction false} NoHeaderKeepsStatus(acts: seq<Action>, init: int)
    requires forall k :: 0 <= k < |acts| ==> acts[k].WriteCall?
    ensures RecordedStatus(acts, init) == init
    decreases |acts|
  {
    if acts != [] {
      NoHeaderKeepsStatus(acts[..|acts| - 1], init);
    }
  }

  /** The path the log records: an empty URL path is logged as "/". */
  function LogPath(p: string): (r: string)
    ensures r != ""
    ensures p != "" ==> r == p
    ensures p == "" ==> r == "/"
  {
    if p == "" then "/" else p
  }

  /** Requests to /api/logs are passed through and never logged. */
  predicate Skipped(r: Request) {
    LogPath(r.path) == "/api/logs"
  }

  /** The request body is read for logging only for POST, PUT and PATCH
      with a non-nil body. */
  predicate Captures(r: Request) {
    r.body.Some? && r.httpMethod in {"POST", "PUT", "PATCH"}
  }

  /** io.ReadAll(io.LimitReader(body, maxBodyLogSize+1)): at most one byte
      more than a log entry keeps.  Read errors are left out. */
  function Captured(r: Request): (c: seq<byte>)
    ensures Captures(r) ==> |c| <= |r.body.value|
    ensures Captures(r) ==> c == r.body.value[..|c|]
    ensures |c| <= MaxBodyLogSize + 1
    ensures !Captures(r) ==> c == []
    ensures Captures(r) && |r.body.value| <= MaxBodyLogSize + 1 ==> c == r.body.value
  {
    if Captures(r) then TruncateForLog(r.body.value, MaxBodyLogSize + 1) else []
  }

  /** The body the wrapped handler reads, as written: a captured body is
      replaced by the captured bytes alone. */
  function Forwarded(r: Request): Option<seq<byte>>
  {
    if Captures(r) then Some(Captured(r)) else r.body
  }

  /** As written, a POST, PUT or PATCH body longer than 65537 bytes reaches
      the handler cut to its first 65537 bytes. */
  lemma LargeBodyCut(r: Request)
    requires Captures(r) && |r.body.value| > MaxBodyLogSize + 1
    ensures Forwarded(r) == Some(r.body.value[..MaxBodyLogSize + 1])
    ensures Forwarded(r) != r.body
  {
    assert |Forwarded(r).value| < |r.body.value|;
  }

  /** The same request with a concrete 65538-byte POST body. */
  lemma LargePostExample()
    ensures var r := Request("POST", "/api/clipboard", "", Some(seq(MaxBodyLogSize + 2, _ => 120 as byte)));
            Forwarded(r) != r.body
  {
    var r := Request("POST", "/api/clipboard", "", Some(seq(MaxBodyLogSize + 2, _ => 120 as byte)));
    LargeBodyCut(r);
  }

  /** The evidently intended forwarding: the captured bytes followed by the
      unread rest of the body (io.MultiReader over the two). */
  function ForwardedWhole(r: Request): Option<seq<byte>>
  {
    if Captures(r) then Some(Captured(r) + r.body.value[|Captured(r)|..]) else r.body
  }

  /** With the rest of the body chained back on, the handler reads exactly
      the body the client sent, and the log keeps the same bytes as
      before. */
  lemma ForwardedWholeIsBody(r: Request)
    ensures ForwardedWhole(r) == r.body
    ensures Captures(r) ==> TruncateForLog(Captured(r), MaxBodyLogSize) == TruncateForLog(r.body.value, MaxBodyLogSize)
  {
    if Captures(r) {
      var b := r.body.value;
      var c := Captured(r);
      assert c + b[|c|..] == b;
    }
  }

  /** A body no longer than 65537 bytes is forwarded whole even as
      written. */
  lemma SmallBodyForwarded(r: Request)
    requires r.body.Some? ==> |r.body.value| <= MaxBodyLogSize + 1
    ensures Forwarded(r) == r.body
  {
  }

  /** The remote address the log records: the host part net.SplitHostPort
      yields (splitHost, empty when it fails), or the raw address when that
      is empty. */
  function RemoteIP(remoteAddr: string, splitHost: string): (ip: string)
    ensures splitHost != "" ==> ip == splitHost
    ensures splitHost == "" ==> ip == remoteAddr
  {
    if splitHost == "" then remoteAddr else splitHost
  }

  /** The entry the middleware logs for r when the wrapped handler made the
      calls acts. */
  function EntryFor(r: Request, acts: seq<Action>, splitHost: string, now: string): (e: LogEntry)
    ensures e.status != 0
    ensures e.path == LogPath(r.path)
    ensures |e.requestBody| <= MaxBodyLogSize && |e.responseBody| <= MaxBodyLogSize
    ensures !Captures(r) ==> e.requestBody == []
  {
    var st := RecordedStatus(acts, 200);
    LogEntry(r.httpMethod, LogPath(r.path), if st == 0 then 200 else st, RemoteIP(r.remoteAddr, splitHost), now,
             TruncateForLog(Captured(r), MaxBodyLogSize), TruncateForLog(Written(acts), MaxBodyLogSize))
  }

  /** next.ServeHTTP(rec, r): a fresh recorder at 200 receives the
      handler's calls in order. */
  method Record(acts: seq<Action>) returns (rec: ResponseRecorder)
    ensures fresh(rec)
    ensures rec.status == RecordedStatus(acts, 200) && rec.buf == Written(acts)
  {
    rec := new ResponseRecorder(200);
    for i := 0 to |acts|
      invariant rec.status == RecordedStatus(acts[..i], 200)
      invariant rec.buf == Written(acts[..i])
    {
      assert acts[..i + 1][..i] == acts[..i];
      match acts[i]
      case WriteHeaderCall(c) =>
        rec.WriteHeader(c);
      case WriteCall(p) =>
        var _ := rec.Write(p);
    }
    assert acts[..|acts|] == acts;
  }

  /** loggingMiddleware around a handler that makes the calls next(req) on
      the writer it is given.  A request to /api/logs is passed on
      unchanged and not logged.  Any other request reaches the handler with
      its whole body: the corrected forwarding, which chains the unread rest
      of a captured body after the captured bytes (the code as written is
      Forwarded).  The handler's calls go to a recorder that starts at 200,
      whose status (0 read as 200) and bytes are then sent to the client,
      and one entry is added to the log. */
  method Serve(logs: RequestLogs, r: Request, next: Request -> seq<Action>, splitHost: string, now: string)
    returns (handled: Request, status: int, body: seq<byte>)
    modifies logs
    ensures Skipped(r) ==> handled == r && logs.entries == old(logs.entries)
    ensures !Skipped(r) ==> handled == r.(body := ForwardedWhole(r)) && handled == r
    ensures !Skipped(r) ==> status != 0 && body == Written(next(handled))
    ensures !Skipped(r) ==> status == EntryFor(r, next(handled), splitHost, now).status
    ensures !Skipped(r) ==> logs.entries == Appended(old(logs.entries), EntryFor(r, next(handled), splitHost, now))
  {
    var path := LogPath(r.path);
    if path == "/api/logs" {
      // The handler answers the client directly; that reply is not followed here.
      handled := r;
      status, body := 0, [];
      return;
    }
    var requestBody: seq<byte> := [];
    handled := r;
    if r.body.Some? && (r.httpMethod == "POST" || r.httpMethod == "PUT" || r.httpMethod == "PATCH") {
      requestBody := TruncateForLog(r.body.value, MaxBodyLogSize + 1);
      handled := r.(body := Some(requestBody + r.body.value[|requestBody|..]));
    }
    assert requestBody == Captured(r) && handled.body == ForwardedWhole(r);
    ForwardedWholeIsBody(r);
    var rec := Record(next(handled));
    status, body := rec.Status(), rec.buf;
    var ip := if splitHost == "" then r.remoteAddr else splitHost;
    var e := LogEntry(r.httpMethod, path, rec.Status(), ip, now,
                      TruncateForLog(requestBody, MaxBodyLogSize), TruncateForLog(rec.buf, MaxBodyLogSize));
    assert e == EntryFor(r, next(handled), splitHost, now);
    logs.Add(e);
  }

  /** The body of a GET /api/logs reply. */
  datatype LogsBody = LogsMessage(msg: string) | LogsList(entries: seq<LogEntry>)

  datatype LogsResponse = LogsResponse(status: int, body: LogsBody)

  /** handleLogs: 405 for any method but GET; 200 with an empty list when
      there is no log; otherwise 200 with the entries newest first. */
  method HandleLogs(httpMethod: string, logs: RequestLogs?) returns (resp: LogsResponse)
    ensures httpMethod != "GET" ==> resp == LogsResponse(405, LogsMessage("method not allowed"))
    ensures httpMethod == "GET" && logs == null ==> resp == LogsResponse(200, LogsList([]))
    ensures httpMethod == "GET" && logs != null ==> resp == LogsResponse(200, LogsList(Reverse(logs.entries)))
  {
    if httpMethod != "GET" {
      return LogsResponse(405, LogsMessage("method not allowed"));
    }
    if logs == null {
      return LogsResponse(200, LogsList([]));
    }
    var listed := logs.List();
    resp := LogsResponse(200, LogsList(listed));
  }
}
