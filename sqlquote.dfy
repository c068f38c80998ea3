/** SQL string literals as the history table builds them
    (internal/history/sqlite.go:181-197; main.go:446-448 is the same
    sqlQuote).  Eval is a small evaluator for exactly the expressions these
    functions produce: quoted literals joined by ||char(10)||.  It is the
    partner against which quoting is proved: what SQLite stores is what the
    caller passed (after sanitising). */
module SqlQuote {
  import opened Wrappers
  import opened GoStrings
  import opened LineEndings
  import opened Sanitize

  /** What sqlQuoteMultiline puts between two line literals: concatenation
      with the character whose code is 10 (LF). */
  const LineSep: string := "||char(10)||"

  /** Doubles every single quote. */
  function Escape(v: string): (r: string)
    ensures '\n' !in v ==> '\n' !in r
    ensures '\r' !in v ==> '\r' !in r
  {
    ReplaceChar(v, '\'', "''")
  }

  /** sqlQuote: a single-quoted SQL literal. */
  function Quote(v: string): string {
    "'" + Escape(v) + "'"
  }

  /** Reads the body of a literal whose opening quote is already consumed:
      a doubled quote stands for one quote, a single quote closes the
      literal.  Returns the value and the text after the closing quote. */
  function LitBody(s: string): (r: Option<(string, string)>)
    ensures r.Some? ==> |r.value.1| < |s|
    decreases |s|
  {
    if s == [] then None
    else if s[0] == '\'' then
      if |s| >= 2 && s[1] == '\'' then
        match LitBody(s[2..])
        case None => None
        case Some((v, rest)) => Some(("'" + v, rest))
      else Some(("", s[1..]))
    else
      match LitBody(s[1..])
      case None => None
      case Some((v, rest)) => Some(([s[0]] + v, rest))
  }

  /** The string value of an expression made of literals joined by
      ||char(10)||, or None when s is not of that form. */
  function Eval(s: string): Option<string>
    decreases |s|
  {
    if s == [] || s[0] != '\'' then None
    else
      match LitBody(s[1..])
      case None => None
      case Some((v, rest)) =>
        if rest == [] then Some(v)
        else if |rest| >= |LineSep| && rest[..|LineSep|] == LineSep then
          match Eval(rest[|LineSep|..])
          case None => None
          case Some(w) => Some(v + "\n" + w)
        else None
  }

  /** The escaped body followed by a closing quote reads back as v, as long
      as what follows cannot be taken for a second quote. */
  lemma {:induction false} LitBodyOfEscape(v: string, tail: string)
    requires tail == [] || tail[0] != '\''
    ensures LitBody(Escape(v) + "'" + tail) == Some((v, tail))
  {
    if v == [] {
      var s := "'" + tail;
      assert Escape(v) + "'" + tail == s;
      assert s[1..] == tail;
    } else {
      LitBodyOfEscape(v[1..], tail);
      EscapeStep(v, tail);
    }
  }

  /** One step of the induction: the first character of v, escaped, in
      front of the escaped rest. */
  lemma EscapeStep(v: string, tail: string)
    requires v != [] && LitBody(Escape(v[1..]) + "'" + tail) == Some((v[1..], tail))
    ensures LitBody(Escape(v) + "'" + tail) == Some((v, tail))
  {
    var w := v[1..];
    var sw := Escape(w) + "'" + tail;
    EscapeHead(v);
    if v[0] == '\'' {
      EscapeQuoteStep(v, w, sw, tail);
    } else {
      EscapePlainStep(v, w, sw, tail);
    }
  }

  /** The step for a leading quote, which is escaped as two. */
  lemma EscapeQuoteStep(v: string, w: string, sw: string, tail: string)
    requires v != [] && v[0] == '\'' && w == v[1..]
    requires Escape(v) == "''" + Escape(w) && sw == Escape(w) + "'" + tail
    requires LitBody(sw) == Some((w, tail))
    ensures LitBody(Escape(v) + "'" + tail) == Some((v, tail))
  {
    assert Escape(v) + "'" + tail == "''" + sw;
    LitBodyPair(sw, w, tail);
    assert "'" + w == v;
  }

  /** The step for any other leading character, which is kept. */
  lemma EscapePlainStep(v: string, w: string, sw: string, tail: string)
    requires v != [] && v[0] != '\'' && w == v[1..]
    requires Escape(v) == [v[0]] + Escape(w) && sw == Escape(w) + "'" + tail
    requires LitBody(sw) == Some((w, tail))
    ensures LitBody(Escape(v) + "'" + tail) == Some((v, tail))
  {
    assert Escape(v) + "'" + tail == [v[0]] + sw;
    LitBodyPlain(v[0], sw, w, tail);
    assert [v[0]] + w == v;
  }

  /** A doubled quote in front of a body adds one quote to its value. */
  lemma LitBodyPair(s: string, w: string, tail: string)
    requires LitBody(s) == Some((w, tail))
    ensures LitBody("''" + s) == Some(("'" + w, tail))
  {
    assert ("''" + s)[2..] == s;
  }

  /** Any other character in front of a body is part of its value. */
  lemma LitBodyPlain(c: char, s: string, w: string, tail: string)
    requires c != '\'' && LitBody(s) == Some((w, tail))
    ensures LitBody([c] + s) == Some(([c] + w, tail))
  {
    assert ([c] + s)[1..] == s;
  }

  /** Escaping a non-empty string starts with the first character's
      escape. */
  lemma EscapeHead(v: string)
    requires v != []
    ensures Escape(v) == (if v[0] == '\'' then "''" else [v[0]]) + Escape(v[1..])
  {
  }

  /** Un-doubling the interior of a quoted literal gives back the value. */
  lemma QuoteRoundTrip(v: string)
    ensures Eval(Quote(v)) == Some(v)
  {
    LitBodyOfEscape(v, "");
    assert Quote(v)[1..] == Escape(v) + "'" + "";
  }

  /** One quoted literal per element. */
  function QuoteEach(parts: seq<string>): (r: seq<string>)
    ensures |r| == |parts|
    ensures forall i :: 0 <= i < |parts| ==> r[i] == Quote(parts[i])
  {
    seq(|parts|, i requires 0 <= i < |parts| => Quote(parts[i]))
  }

  /** Quoting each line and joining with ||char(10)|| evaluates to the
      lines joined with LF. */
  lemma {:induction false} EvalQuotedLines(parts: seq<string>)
    requires |parts| >= 1
    ensures Eval(Join(QuoteEach(parts), LineSep)) == Some(Join(parts, "\n"))
  {
    var q := QuoteEach(parts);
    if |parts| == 1 {
      QuoteRoundTrip(parts[0]);
    } else {
      assert q[1..] == QuoteEach(parts[1..]);
      EvalQuotedLines(parts[1..]);
      assert Join(q, LineSep) == q[0] + LineSep + Join(q[1..], LineSep);
      assert Join(parts, "\n") == parts[0] + "\n" + Join(parts[1..], "\n");
      EvalCons(parts[0], Join(q[1..], LineSep), Join(parts[1..], "\n"));
    }
  }

  /** A quoted literal joined by ||char(10)|| onto an expression whose
      value is w has the value v, LF, w. */
  lemma EvalCons(v: string, rest: string, w: string)
    requires Eval(rest) == Some(w)
    ensures Eval(Quote(v) + LineSep + rest) == Some(v + "\n" + w)
  {
    var tail := LineSep + rest;
    var body := Escape(v) + "'" + tail;
    QuoteThen(v, tail);
    LitBodyOfEscape(v, tail);
    assert Quote(v) + LineSep + rest == "'" + body;
    assert ("'" + body)[1..] == body;
    assert tail[..|LineSep|] == LineSep && tail[|LineSep|..] == rest;
  }

  /** A quoted literal followed by more text, regrouped around its opening
      quote. */
  lemma QuoteThen(v: string, tail: string)
    ensures Quote(v) + tail == "'" + (Escape(v) + "'" + tail)
  {
  }

  /** The expression sqlQuoteMultiline builds, as a function of its input:
      the sanitised text split at LF, each line quoted, joined by
      ||char(10)||, and '' for empty text. */
  function MultilineLiteral(v: string): string {
    var w := SanitizeForDB(v);
    if w == "" then "''" else Join(QuoteEach(Split(w, '\n')), LineSep)
  }

  /** Round trip: SQLite evaluates the built expression to the sanitised
      text, so newlines, tabs and quotes survive storage, with CRLF and CR
      stored as LF and NUL dropped. */
  lemma MultilineRoundTrip(v: string)
    ensures Eval(MultilineLiteral(v)) == Some(SanitizeForDB(v))
  {
    var w := SanitizeForDB(v);
    if w == "" {
      QuoteRoundTrip("");
      assert Quote("") == "''";
    } else {
      EvalQuotedLines(Split(w, '\n'));
      JoinSplit(w, '\n');
    }
  }

  /** The built expression fits on one line: it contains no LF and no CR. */
  lemma MultilineHasNoLineBreaks(v: string)
    ensures '\n' !in MultilineLiteral(v) && '\r' !in MultilineLiteral(v)
  {
    var w := SanitizeForDB(v);
    SanitizeIsLineEndsOfNulFree(v);
    if w != "" {
      var parts := Split(w, '\n');
      var q := QuoteEach(parts);
      forall i | 0 <= i < |q| ensures '\n' !in q[i] && '\r' !in q[i] {
        assert '\r' !in parts[i] by {
          assert forall x :: x in parts[i] ==> x in w by {
            JoinSplitMembers(w, '\n', i);
          }
        }
      }
      LineSepPlain();
      JoinAvoids(q, LineSep, '\n');
      JoinAvoids(q, LineSep, '\r');
    }
  }

  /** The separator holds no line break. */
  lemma LineSepPlain()
    ensures '\n' !in LineSep && '\r' !in LineSep
  {
    assert forall i :: 0 <= i < |LineSep| ==> LineSep[i] != '\n' && LineSep[i] != '\r';
  }

  /** Every character of a piece of a split is a character of the string. */
  lemma {:induction false} JoinSplitMembers(s: string, c: char, i: int)
    requires 0 <= i < |Split(s, c)|
    ensures forall x :: x in Split(s, c)[i] ==> x in s
    decreases |s|
  {
    var k := IndexOfChar(s, c);
    if k < |s| && i > 0 {
      JoinSplitMembers(s[k + 1..], c, i - 1);
      assert Split(s, c)[i] == Split(s[k + 1..], c)[i - 1];
    }
  }

  /** Text with no NUL, CR or LF gives the plain sqlQuote literal. */
  lemma MultilineOfSingleLine(v: string)
    requires '\0' !in v && '\r' !in v && '\n' !in v
    ensures MultilineLiteral(v) == Quote(v)
  {
    SanitizeKeepsClean(v);
    if v == "" {
      assert Escape(v) == "";
    }
  }

  /** Empty text, and text made only of NUL, give the empty literal ''. */
  lemma MultilineOfNothing()
    ensures MultilineLiteral("") == "''"
    ensures MultilineLiteral("\0\0") == "''"
  {
    assert RemoveNul("\0\0") == "" by {
      assert "\0\0"[1..] == "\0" && "\0"[1..] == "";
    }
  }

  /** sqlQuoteMultiline: the normalisation, the early return for empty
      text, and the loop that quotes each line in place. */
  method QuoteMultiline(v0: string) returns (r: string)
    ensures r == MultilineLiteral(v0)
  {
    var v := RemoveNul(v0);
    v := CrlfToLf(v);
    v := CrToLf(v);
    assert v == SanitizeForDB(v0);
    if v == "" {
      return "''";
    }
    var lines := Split(v, '\n');
    var parts := QuoteLines(lines);
    r := Join(parts, LineSep);
  }

  /** The loop of sqlQuoteMultiline that rewrites parts[i] in place: every
      line becomes its quoted literal. */
  method QuoteLines(lines: seq<string>) returns (quoted: seq<string>)
    ensures quoted == QuoteEach(lines)
  {
    var parts := new string[|lines|](i requires 0 <= i < |lines| => lines[i]);
    for i := 0 to parts.Length
      invariant forall k :: 0 <= k < i ==> parts[k] == Quote(lines[k])
      invariant forall k :: i <= k < parts.Length ==> parts[k] == lines[k]
    {
      parts[i] := Quote(parts[i]);
    }
    quoted := parts[..];
    assert quoted == QuoteEach(lines);
  }
}
