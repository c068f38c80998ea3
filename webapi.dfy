/** The web client's calls to the clipboard API (web/src/api.js): the
    404 rule of getClipboard and the JSON-then-form submission of
    postClipboard.  fetch, JSON.stringify and res.json() are left out:
    each fetch's reply is a parameter, with the decoded JSON already in
    it.  The file's own normalizeLineEndings (web/src/api.js:13-20) is the
    same function as WebText.NormalizeLineEndings and is modelled once. */
module WebApi {
  import opened Wrappers
  import opened GoStrings
  import opened Models
  import opened Sanitize
  import opened WebText

  /** What one fetch gave: a reply from the server (its status, status text,
      body text and, for a 2xx reply, the decoded entry), or a rejected
      promise (a network failure). */
  datatype Reply = Answered(status: int, statusText: string, bodyText: string, json: Entry)
                 | Rejected(reason: string)

  /** res.ok */
  predicate IsOk(status: int) {
    200 <= status <= 299
  }

  /** getClipboard: the entry for a 2xx reply, null (None) for 404, and an
      error carrying the status text for any other status or a failed
      fetch. */
  function GetClipboard(reply: Reply): (r: Result<Option<Entry>, string>)
    ensures r == Ok(None) <==> reply.Answered? && reply.status == 404
    ensures reply.Answered? && IsOk(reply.status) ==> r == Ok(Some(reply.json))
    ensures reply.Answered? && !IsOk(reply.status) && reply.status != 404 ==> r == Err(reply.statusText)
    ensures reply.Rejected? ==> r == Err(reply.reason)
  {
    match reply
    case Rejected(reason) => Err(reason)
    case Answered(status, statusText, _, json) =>
      if !IsOk(status) then
        if status == 404 then Ok(None) else Err(statusText)
      else Ok(Some(json))
  }

  /** One submission the client sent. */
  datatype Submission = JsonBody(text: string, source: string) | FormBody(text: string, source: string)

  /** The submissions in the order they were sent, and what postClipboard
      returned or threw. */
  datatype PostTrace = PostTrace(sent: seq<Submission>, result: Result<Entry, string>)

  /** tryJson / tryForm on a reply: a non-OK reply throws the body text,
      or the status text when the body is empty; a rejected fetch throws
      its reason. */
  function Attempt(reply: Reply): (r: Result<Entry, string>)
    ensures reply.Answered? && IsOk(reply.status) ==> r == Ok(reply.json)
    ensures reply.Answered? && !IsOk(reply.status) ==> r.Err? && (reply.bodyText != "" ==> r.error == reply.bodyText)
    ensures reply.Answered? && !IsOk(reply.status) && reply.bodyText == "" ==> r == Err(reply.statusText)
    ensures reply.Rejected? ==> r == Err(reply.reason)
  {
    match reply
    case Rejected(reason) => Err(reason)
    case Answered(status, statusText, bodyText, json) =>
      if !IsOk(status) then Err(if bodyText != "" then bodyText else statusText)
      else Ok(json)
  }

  /** The text both attempts send: normalizeLineEndings(text).trim(). */
  function Normalized(s: string): (t: string)
    ensures '\r' !in t && '\U{2028}' !in t && '\U{2029}' !in t
    ensures t == [] || (!JsIsSpace(t[0]) && !JsIsSpace(t[|t| - 1]))
  {
    var n := NormalizeLineEndings(Str(s)).s;
    JsTrimSpec(n);
    JsTrim(n)
  }

  /** The source postClipboard sends: 'web' when none is passed. */
  function SourceOrWeb(source: Option<string>): (r: string)
    ensures source.Some? ==> r == source.value
    ensures source.None? ==> r == "web"
  {
    if source.None? then "web" else source.value
  }

  /** postClipboard with the replies the two attempts would get.  A
      non-string text throws before anything is sent (trim is not defined
      on it).  Otherwise the JSON attempt goes first; the form attempt is
      made only when it fails; both send the same normalised text and
      source; the result is the first attempt that succeeds, and when both
      fail it is the JSON attempt's error. */
  function PostClipboard(text: Value, source: Option<string>, jsonReply: Reply, formReply: Reply): (r: PostTrace)
    ensures text.NonStr? ==> r.sent == [] && r.result.Err?
    ensures text.Str? ==> 1 <= |r.sent| <= 2 && r.sent[0] == JsonBody(Normalized(text.s), SourceOrWeb(source))
    ensures |r.sent| == 2 <==> text.Str? && Attempt(jsonReply).Err?
    ensures |r.sent| == 2 ==> r.sent[1] == FormBody(Normalized(text.s), SourceOrWeb(source))
    ensures text.Str? && r.result.Err? ==> r.result == Attempt(jsonReply)
    ensures r.result.Ok? ==> r.result == Attempt(jsonReply) || (|r.sent| == 2 && r.result == Attempt(formReply))
  {
    match text
    case NonStr(_) => PostTrace([], Err("TypeError"))
    case Str(s) =>
      var normalized := Normalized(s);
      var src := SourceOrWeb(source);
      var first := Attempt(jsonReply);
      if first.Ok? then PostTrace([JsonBody(normalized, src)], first)
      else
        var second := Attempt(formReply);
        PostTrace([JsonBody(normalized, src), FormBody(normalized, src)], if second.Ok? then second else first)
  }

  /** The server stores what the browser sent: for text without NUL that
      does not start or end with U+0085, the server's TrimSpace and
      sanitizeForDB leave the submitted text as it is. */
  lemma ServerStoresSubmittedText(s: string)
    requires '\0' !in s
    requires var t := Normalized(s); t == [] || (t[0] != '\U{0085}' && t[|t| - 1] != '\U{0085}')
    ensures SanitizeForDB(TrimSpace(Normalized(s))) == Normalized(s)
  {
    var n := NormalizeLineEndings(Str(s)).s;
    assert '\0' !in n;
    ServerKeepsClientTrim(n);
    SanitizeKeepsClean(Normalized(s));
  }
}
