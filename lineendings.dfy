/** The two line-ending rewrites that the server (sanitizeForDB,
    sqlQuoteMultiline) and the web client (normalizeLineEndings) chain one
    after the other: every CRLF pair becomes LF, then every remaining CR
    becomes LF.  LineEnds is an independent one-pass definition of the
    combined effect. */
module LineEndings {
  import opened GoStrings

  /** strings.ReplaceAll(s, "\r\n", "\n"), and s.replace(/\r\n/g, '\n'). */
  function CrlfToLf(s: string): string {
    ReplacePair(s, '\r', '\n', "\n")
  }

  /** strings.ReplaceAll(s, "\r", "\n"), and s.replace(/\r/g, '\n'). */
  function CrToLf(s: string): string {
    ReplaceChar(s, '\r', "\n")
  }

  /** One left-to-right pass: a CR together with the LF right after it
      becomes a single LF, a CR on its own becomes an LF, and every other
      character is kept. */
  function LineEnds(s: string): (r: string)
    ensures '\r' !in r
    ensures forall x :: x in r ==> x == '\n' || x in s
    ensures |r| <= |s|
  {
    if s == [] then []
    else if s[0] == '\r' then "\n" + LineEnds(if |s| >= 2 && s[1] == '\n' then s[2..] else s[1..])
    else [s[0]] + LineEnds(s[1..])
  }

  /** The two chained ReplaceAll calls do exactly what the one-pass
      definition says. */
  lemma {:induction false} ChainIsLineEnds(s: string)
    ensures CrToLf(CrlfToLf(s)) == LineEnds(s)
    decreases |s|
  {
    if s == [] {
    } else if |s| >= 2 && s[0] == '\r' && s[1] == '\n' {
      ChainIsLineEnds(s[2..]);
      ReplaceCharAppend("\n", CrlfToLf(s[2..]), '\r', "\n");
    } else {
      ChainIsLineEnds(s[1..]);
      ReplaceCharAppend([s[0]], CrlfToLf(s[1..]), '\r', "\n");
      if s[0] == '\r' {
        assert !(|s| >= 2 && s[1] == '\n');
      }
    }
  }

  /** Text without CR is left alone by the one-pass rewrite. */
  lemma LineEndsNoCr(s: string)
    requires '\r' !in s
    ensures LineEnds(s) == s
  {
  }
}
