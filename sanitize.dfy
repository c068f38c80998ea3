/** sanitizeForDB (internal/server/handlers.go:22-27): the normalisation
    the server applies to text and source before they reach the history
    table. */
module Sanitize {
  import opened GoStrings
  import opened LineEndings

  /** strings.ReplaceAll(s, "\x00", ""). */
  function RemoveNul(s: string): (r: string)
    ensures '\0' !in r
    ensures |r| <= |s|
  {
    ReplaceChar(s, '\0', "")
  }

  /** NUL is removed first, then CRLF becomes LF, then CR becomes LF. */
  function SanitizeForDB(s: string): string {
    CrToLf(CrlfToLf(RemoveNul(s)))
  }

  /** The sanitised text is the one-pass line-ending rewrite of the text
      with every NUL taken out.  So the result has no NUL and no CR, and
      each CRLF and each lone CR of the NUL-free text is one LF. */
  lemma {:induction false} SanitizeIsLineEndsOfNulFree(s: string)
    ensures SanitizeForDB(s) == LineEnds(RemoveNul(s))
    ensures '\0' !in SanitizeForDB(s) && '\r' !in SanitizeForDB(s)
    ensures |SanitizeForDB(s)| <= |s|
  {
    ChainIsLineEnds(RemoveNul(s));
  }

  /** Text that has no NUL and no CR is stored as it is. */
  lemma {:induction false} SanitizeKeepsClean(s: string)
    requires '\0' !in s && '\r' !in s
    ensures SanitizeForDB(s) == s
  {
    assert RemoveNul(s) == s;
    assert CrlfToLf(s) == s;
  }

  /** Sanitising is idempotent. */
  lemma {:induction false} SanitizeIdempotent(s: string)
    ensures SanitizeForDB(SanitizeForDB(s)) == SanitizeForDB(s)
  {
    SanitizeIsLineEndsOfNulFree(s);
    SanitizeKeepsClean(SanitizeForDB(s));
  }

  /** Because NUL goes first, a CR and an LF separated only by NUL
      characters collapse into a single LF. */
  lemma SanitizeNulBetweenCrLf()
    ensures SanitizeForDB("\r\0\n") == "\n"
  {
    var s := "\r\0\n";
    assert s[1..] == "\0\n" && s[1..][1..] == "\n" && "\n"[1..] == [];
    assert RemoveNul("\n") == "\n";
    assert RemoveNul("\0\n") == "\n";
    assert RemoveNul(s) == "\r\n";
    SanitizeIsLineEndsOfNulFree(s);
    assert "\r\n"[2..] == [];
  }
}
