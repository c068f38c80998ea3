/** The web client's text utilities (web/src/utils/text.js): truncation,
    search highlighting and line-ending normalisation, plus the
    String.prototype.trim they rely on.  Characters are Unicode scalar
    values, so lengths count one per character where JavaScript counts
    UTF-16 code units; case mapping is the model's ASCII lowering;
    escapeHtml needs the DOM and is a parameter. */
module WebText {
  import opened Wrappers
  import opened GoStrings
  import opened LineEndings

  // ---------------------------------------------------------------------
  // String.prototype.trim
  // ---------------------------------------------------------------------

  /** The ECMAScript WhiteSpace and LineTerminator code points.  Unlike Go's
      unicode.IsSpace this includes U+FEFF and excludes U+0085. */
  predicate JsIsSpace(c: char) {
    || c == ' ' || c == '\t' || c == '\n' || c == '\U{000B}' || c == '\U{000C}' || c == '\r'
    || c == '\U{00A0}' || c == '\U{1680}' || ('\U{2000}' <= c <= '\U{200A}')
    || c == '\U{2028}' || c == '\U{2029}' || c == '\U{202F}' || c == '\U{205F}' || c == '\U{3000}'
    || c == '\U{FEFF}'
  }

  predicate JsAllSpace(s: string) {
    forall i :: 0 <= i < |s| ==> JsIsSpace(s[i])
  }

  /** String.prototype.trim: drops the leading and the trailing white
      space. */
  function JsTrim(s: string): (r: string)
    ensures |r| <= |s|
    ensures forall x :: x in r ==> x in s
  {
    if |s| > 0 && JsIsSpace(s[0]) then JsTrim(s[1..])
    else if |s| > 0 && JsIsSpace(s[|s| - 1]) then JsTrim(s[..|s| - 1])
    else s
  }

  /** The trimmed text is the slice of s left once a white-space prefix
      and a white-space suffix are cut off. */
  lemma {:induction false} JsTrimSlice(s: string)
    ensures exists i, j :: 0 <= i <= j <= |s| && JsTrim(s) == s[i..j] && JsAllSpace(s[..i]) && JsAllSpace(s[j..])
  {
    if |s| > 0 && JsIsSpace(s[0]) {
      var t := s[1..];
      JsTrimSlice(t);
      var i, j :| 0 <= i <= j <= |t| && JsTrim(t) == t[i..j] && JsAllSpace(t[..i]) && JsAllSpace(t[j..]);
      JsTrimSliceFront(s, i, j);
    } else if |s| > 0 && JsIsSpace(s[|s| - 1]) {
      var t := s[..|s| - 1];
      JsTrimSlice(t);
      var i, j :| 0 <= i <= j <= |t| && JsTrim(t) == t[i..j] && JsAllSpace(t[..i]) && JsAllSpace(t[j..]);
      JsTrimSliceBack(s, i, j);
    } else {
      assert s[0..|s|] == s && s[..0] == [] && s[|s|..] == [];
    }
  }

  /** The step of JsTrimSlice that drops a leading space. */
  lemma JsTrimSliceFront(s: string, i: int, j: int)
    requires |s| > 0 && JsIsSpace(s[0]) && 0 <= i <= j <= |s| - 1
    requires JsTrim(s[1..]) == s[1..][i..j] && JsAllSpace(s[1..][..i]) && JsAllSpace(s[1..][j..])
    ensures JsTrim(s) == s[i + 1..j + 1] && JsAllSpace(s[..i + 1]) && JsAllSpace(s[j + 1..])
  {
    var t := s[1..];
    assert t[i..j] == s[i + 1..j + 1] && t[j..] == s[j + 1..];
    var pre := s[..i + 1];
    forall k | 0 <= k < |pre| ensures JsIsSpace(pre[k]) {
      if k > 0 { assert pre[k] == t[..i][k - 1]; }
    }
  }

  /** The step of JsTrimSlice that drops a trailing space. */
  lemma JsTrimSliceBack(s: string, i: int, j: int)
    requires |s| > 0 && !JsIsSpace(s[0]) && JsIsSpace(s[|s| - 1]) && 0 <= i <= j <= |s| - 1
    requires JsTrim(s[..|s| - 1]) == s[..|s| - 1][i..j] && JsAllSpace(s[..|s| - 1][..i]) && JsAllSpace(s[..|s| - 1][j..])
    ensures JsTrim(s) == s[i..j] && JsAllSpace(s[..i]) && JsAllSpace(s[j..])
  {
    var t := s[..|s| - 1];
    assert JsTrim(s) == JsTrim(t);
    assert t[i..j] == s[i..j] && t[..i] == s[..i];
    var suf := s[j..];
    forall k | 0 <= k < |suf| ensures JsIsSpace(suf[k]) {
      if k < |t| - j { assert suf[k] == t[j..][k]; } else { assert k == |s| - 1 - j && suf[k] == s[|s| - 1]; }
    }
  }

  /** The trimmed text starts and ends with a non-space character, is empty
      exactly when s is all white space, and is s itself when s has no white
      space at either end, and is what is left once a white-space prefix and
      a white-space suffix are cut off. */
  lemma {:induction false} JsTrimSpec(s: string)
    ensures var r := JsTrim(s);
            && (r == [] || (!JsIsSpace(r[0]) && !JsIsSpace(r[|r| - 1])))
            && (r == [] <==> JsAllSpace(s))
            && (|s| > 0 && !JsIsSpace(s[0]) && !JsIsSpace(s[|s| - 1]) ==> r == s)
            && (exists i, j :: 0 <= i <= j <= |s| && r == s[i..j] && JsAllSpace(s[..i]) && JsAllSpace(s[j..]))
  {
    JsTrimSlice(s);
    if |s| > 0 && JsIsSpace(s[0]) {
      JsTrimSpec(s[1..]);
      assert JsAllSpace(s) <==> JsAllSpace(s[1..]) by {
        if JsAllSpace(s[1..]) {
          forall i | 0 <= i < |s| ensures JsIsSpace(s[i]) {
            if i > 0 { assert s[i] == s[1..][i - 1]; }
          }
        }
      }
    } else if |s| > 0 && JsIsSpace(s[|s| - 1]) {
      var t := s[..|s| - 1];
      JsTrimSpec(t);
      assert !JsAllSpace(s);
      assert |t| > 0 && t[0] == s[0];
      assert !JsAllSpace(t);
    }
  }

  /** Text the browser has trimmed arrives unchanged through the server's
      strings.TrimSpace, unless it starts or ends with U+0085, which only
      Go counts as white space. */
  lemma ServerKeepsClientTrim(s: string)
    requires var r := JsTrim(s); r == [] || (r[0] != '\U{0085}' && r[|r| - 1] != '\U{0085}')
    ensures TrimSpace(JsTrim(s)) == JsTrim(s)
  {
    JsTrimSpec(s);
    var r := JsTrim(s);
    if r != [] {
      assert !IsSpace(r[0]) && !IsSpace(r[|r| - 1]);
      TrimSpaceSpec(r);
    }
  }

  // ---------------------------------------------------------------------
  // shortText
  // ---------------------------------------------------------------------

  /** A text argument: None is null or undefined. */
  predicate Falsy(text: Option<string>) {
    text.None? || text.value == ""
  }

  /** shortText's default bound. */
  const DefaultMax: nat := 320

  const Ellipsis: char := '\U{2026}'

  /** shortText: "" for a falsy text; the text itself when it has at most
      max characters; otherwise its first max characters followed by an
      ellipsis, max + 1 characters in all. */
  function ShortText(text: Option<string>, max: nat): (r: string)
    ensures Falsy(text) ==> r == ""
    ensures !Falsy(text) && |text.value| <= max ==> r == text.value
    ensures !Falsy(text) && |text.value| > max ==> |r| == max + 1 && r[..max] == text.value[..max] && r[max] == Ellipsis
  {
    if Falsy(text) then ""
    else
      var t := text.value;
      if |t| <= max then t else t[..max] + [Ellipsis]
  }

  /** Shortening a shortened text changes nothing: the ellipsis form is
      shortened back to itself. */
  lemma ShortTextIdempotent(text: Option<string>, max: nat)
    ensures ShortText(Some(ShortText(text, max)), max) == ShortText(text, max)
  {
    var r := ShortText(text, max);
    if !Falsy(text) && |text.value| > max {
      assert r == r[..max] + [Ellipsis];
    }
  }

  // ---------------------------------------------------------------------
  // highlightSearch
  // ---------------------------------------------------------------------

  const MarkOpen: string := "<mark class=\"search-highlight\">"
  const MarkClose: string := "</mark>"

  /** (query || '').trim().toLowerCase() */
  function NormalQuery(query: Option<string>): string {
    Lower(JsTrim(if query.None? then "" else query.value))
  }

  /** highlightSearch with the default shortText and the escape function
      esc.  A blank query or a falsy text gives the escaped short text; so
      does a query the short text does not contain; otherwise the first
      case-insensitive occurrence in the short text is wrapped in a mark
      element and the three pieces are escaped separately. */
  function HighlightSearch(text: Option<string>, query: Option<string>, esc: string -> string): (r: string)
    ensures NormalQuery(query) == "" || Falsy(text) ==> r == esc(ShortText(text, DefaultMax))
    ensures (forall j :: !OccursAt(Lower(ShortText(text, DefaultMax)), NormalQuery(query), j))
            ==> r == esc(ShortText(text, DefaultMax))
  {
    var q := NormalQuery(query);
    if q == "" || Falsy(text) then esc(ShortText(text, DefaultMax))
    else
      var t := ShortText(text, DefaultMax);
      var idx := IndexOf(Lower(t), q);
      if idx == -1 then esc(t)
      else esc(t[..idx]) + MarkOpen + esc(t[idx..idx + |q|]) + MarkClose + esc(t[idx + |q|..])
  }

  /** The match case: when the short text splits as before + hit + after,
      the match is the normalised query up to case, and no earlier position
      of the lower-cased text holds the query, the result marks exactly that
      match. */
  lemma HighlightMarksFirstMatch(text: Option<string>, query: Option<string>, esc: string -> string,
                                 before: string, hit: string, after: string)
    requires NormalQuery(query) != "" && !Falsy(text)
    requires ShortText(text, DefaultMax) == before + hit + after
    requires Lower(hit) == NormalQuery(query)
    requires forall j :: 0 <= j < |before| ==> !OccursAt(Lower(before + hit + after), NormalQuery(query), j)
    ensures HighlightSearch(text, query, esc) == esc(before) + MarkOpen + esc(hit) + MarkClose + esc(after)
  {
    var q := NormalQuery(query);
    var t := before + hit + after;
    var lt := Lower(t);
    assert lt[|before|..|before| + |q|] == Lower(hit);
    assert OccursAt(lt, q, |before|);
    var idx := IndexOf(lt, q);
    assert idx == |before|;
    assert t[..idx] == before && t[idx..idx + |q|] == hit && t[idx + |q|..] == after;
  }

  /** Matches past the truncation are not seen: a 321-character text of
      'a's ending in 'b' searched for "b" gives back the escaped short
      text, with no mark. */
  lemma HighlightMissesTruncatedMatch(esc: string -> string)
    ensures var text := Some(seq(DefaultMax, _ => 'a') + "b");
            HighlightSearch(text, Some("b"), esc) == esc(ShortText(text, DefaultMax))
  {
    var text := Some(seq(DefaultMax, _ => 'a') + "b");
    var t := ShortText(text, DefaultMax);
    assert t == seq(DefaultMax, _ => 'a') + [Ellipsis];
    assert JsTrim("b") == "b";
    assert NormalQuery(Some("b")) == "b";
    forall j | true ensures !OccursAt(Lower(t), "b", j) {
      if 0 <= j && j + 1 <= |t| {
        assert Lower(t)[j] == LowerChar(t[j]);
      }
    }
  }

  // ---------------------------------------------------------------------
  // normalizeLineEndings
  // ---------------------------------------------------------------------

  /** A JavaScript value: a string, or any other value (opaque). */
  datatype Value = Str(s: string) | NonStr(other: int)

  /** The two replaces of the Unicode line and paragraph separators. */
  function SeparatorsToLf(s: string): (r: string)
    ensures '\U{2028}' !in r && '\U{2029}' !in r
    ensures forall x :: x in r ==> x == '\n' || x in s
  {
    ReplaceChar(ReplaceChar(s, '\U{2028}', "\n"), '\U{2029}', "\n")
  }

  /** normalizeLineEndings: a non-string is returned as it is; a string
      comes back free of CR, U+2028 and U+2029, every line break an LF. */
  function NormalizeLineEndings(v: Value): (r: Value)
    ensures v.NonStr? ==> r == v
    ensures v.Str? ==> r.Str? && '\r' !in r.s && '\U{2028}' !in r.s && '\U{2029}' !in r.s
  {
    match v
    case NonStr(_) => v
    case Str(s) =>
      var t := CrToLf(CrlfToLf(s));
      ChainIsLineEnds(s);
      Str(SeparatorsToLf(t))
  }

  /** Normalising twice is normalising once. */
  lemma NormalizeIdempotent(v: Value)
    ensures NormalizeLineEndings(NormalizeLineEndings(v)) == NormalizeLineEndings(v)
  {
    if v.Str? {
      var r := NormalizeLineEndings(v).s;
      assert CrlfToLf(r) == r;
      assert CrToLf(r) == r;
    }
  }

  /** On text without the Unicode separators the browser's normalisation is
      the server's line-ending rewrite: CRLF becomes one LF because it is
      replaced before the lone CR. */
  lemma NormalizeIsLineEnds(s: string)
    requires '\U{2028}' !in s && '\U{2029}' !in s
    ensures NormalizeLineEndings(Str(s)) == Str(LineEnds(s))
  {
    ChainIsLineEnds(s);
    var t := LineEnds(s);
    assert '\U{2028}' !in t && '\U{2029}' !in t;
  }

  /** A CRLF pair becomes exactly one LF. */
  lemma CrlfBecomesOneLf()
    ensures NormalizeLineEndings(Str("\r\n")) == Str("\n")
  {
    NormalizeIsLineEnds("\r\n");
    assert "\r\n"[2..] == [];
  }
}
