/** The `.mode tabs` row format of the older server (main.go:405-432):
    what the sqlite3 shell prints for selected rows, and selectRows, which
    reads it back with a bufio.Scanner and strings.SplitN(line, "\t", 5).
    The parser works on any output; the renderer is its partner, against
    which the round trip and its failures are stated. */
module TabRows {
  import opened Wrappers
  import opened GoStrings
  import opened Models

  // ---------------------------------------------------------------------
  // Library pieces: SplitN, bufio.ScanLines, lenient ParseInt
  // ---------------------------------------------------------------------

  /** strings.SplitN(s, string(c), n) for n >= 1: at most n pieces, the last
      one holding the unsplit rest. */
  function SplitN(s: string, c: char, n: nat): (parts: seq<string>)
    requires n >= 1
    ensures 1 <= |parts| <= n
    ensures forall i :: 0 <= i < |parts| - 1 ==> c !in parts[i]
    ensures |parts| < n ==> c !in parts[|parts| - 1]
    decreases n
  {
    var i := IndexOfChar(s, c);
    if n == 1 || i == |s| then [s] else [s[..i]] + SplitN(s[i + 1..], c, n - 1)
  }

  /** The number of occurrences of c in s. */
  function Count(s: string, c: char): nat {
    multiset(s)[c]
  }

  /** The occurrences of c before, at and after its first position. */
  lemma CountAtFirst(s: string, c: char)
    requires IndexOfChar(s, c) < |s|
    ensures Count(s, c) == 1 + Count(s[IndexOfChar(s, c) + 1..], c)
  {
    var i := IndexOfChar(s, c);
    CutAt(s, i);
    assert multiset(s) == multiset(s[..i]) + multiset([s[i]]) + multiset(s[i + 1..]);
  }

  /** SplitN yields one piece per separator plus one, up to n. */
  lemma {:induction false} SplitNLength(s: string, c: char, n: nat)
    requires n >= 1
    ensures |SplitN(s, c, n)| == if Count(s, c) + 1 < n then Count(s, c) + 1 else n
    decreases n
  {
    var i := IndexOfChar(s, c);
    if n == 1 {
      assert SplitN(s, c, n) == [s];
    } else if i == |s| {
      assert s[..i] == s;
      assert Count(s, c) == 0;
      assert SplitN(s, c, n) == [s];
    } else {
      var rest := SplitN(s[i + 1..], c, n - 1);
      CountAtFirst(s, c);
      SplitNLength(s[i + 1..], c, n - 1);
      assert SplitN(s, c, n) == [s[..i]] + rest;
      assert |SplitN(s, c, n)| == 1 + |rest|;
    }
  }

  /** Joining the pieces of SplitN with the separator gives back the string. */
  lemma {:induction false} JoinSplitN(s: string, c: char, n: nat)
    requires n >= 1
    ensures Join(SplitN(s, c, n), [c]) == s
    decreases n
  {
    var i := IndexOfChar(s, c);
    if n > 1 && i < |s| {
      var rest := SplitN(s[i + 1..], c, n - 1);
      JoinSplitN(s[i + 1..], c, n - 1);
      assert SplitN(s, c, n) == [s[..i]] + rest;
      JoinCons(s[..i], rest, [c]);
      CutAt(s, i);
    } else {
      assert SplitN(s, c, n) == [s];
    }
  }

  /** The first occurrence of c in x + [c] + rest, when x has none, is right
      after x. */
  lemma IndexOfCharAfter(x: string, c: char, rest: string)
    requires c !in x
    ensures IndexOfChar(x + [c] + rest, c) == |x|
    ensures (x + [c] + rest)[..|x|] == x && (x + [c] + rest)[|x| + 1..] == rest
  {
    var s := x + [c] + rest;
    assert s[|x|] == c;
  }

  /** Splitting at a separator that the leading piece does not contain. */
  lemma SplitNAfter(x: string, c: char, rest: string, n: nat)
    requires n >= 2 && c !in x
    ensures SplitN(x + [c] + rest, c, n) == [x] + SplitN(rest, c, n - 1)
  {
    IndexOfCharAfter(x, c, rest);
  }

  lemma SplitAfter(x: string, c: char, rest: string)
    requires c !in x
    ensures Split(x + [c] + rest, c) == [x] + Split(rest, c)
  {
    IndexOfCharAfter(x, c, rest);
  }

  lemma SplitWithout(x: string, c: char)
    requires c !in x
    ensures Split(x, c) == [x] && SplitN(x, c, 5) == [x]
  {
    assert IndexOfChar(x, c) == |x|;
  }

  /** bufio.ScanLines drops one CR before each line break. */
  function DropCR(line: string): (r: string)
    ensures r == line || (line == r + ['\r'])
  {
    if |line| > 0 && line[|line| - 1] == '\r' then line[..|line| - 1] else line
  }

  /** The pieces between line breaks that are tokens: all but a final
      empty piece (what follows a last line break, or empty input). */
  function Tokens(parts: seq<string>): (r: seq<string>)
    requires |parts| >= 1
    ensures r == parts || (r == parts[..|parts| - 1] && parts[|parts| - 1] == "")
  {
    if parts[|parts| - 1] == "" then parts[..|parts| - 1] else parts
  }

  /** DropCR applied to every line. */
  function DropCRs(lines: seq<string>): (r: seq<string>)
    ensures |r| == |lines|
    ensures forall i :: 0 <= i < |lines| ==> r[i] == DropCR(lines[i])
  {
    seq(|lines|, i requires 0 <= i < |lines| => DropCR(lines[i]))
  }

  /** The tokens a bufio.Scanner with ScanLines yields: the pieces between
      line breaks, each without a trailing CR; the empty piece after a
      final line break (or of empty input) is not a token. */
  function ScannerLines(s: string): (lines: seq<string>)
    ensures |lines| <= |Split(s, '\n')|
  {
    DropCRs(Tokens(Split(s, '\n')))
  }

  /** The syntax strconv.ParseInt(s, 10, 64) accepts, in range or not. */
  predicate IntSyntax(s: string) {
    s != [] && var digits := if s[0] == '+' || s[0] == '-' then s[1..] else s;
    digits != [] && AllDigits(digits)
  }

  const MaxUint64: int := 0xFFFF_FFFF_FFFF_FFFF

  /** The leading run of decimal digits of s. */
  function DigitRun(s: string): (r: string)
    ensures AllDigits(r) && |r| <= |s| && r == s[..|r|]
    ensures |r| == |s| || !IsDigit(s[|r|])
  {
    if s == [] || !IsDigit(s[0]) then []
    else
      var t := DigitRun(s[1..]);
      assert s[1..][..|t|] == s[1..|t| + 1];
      [s[0]] + t
  }

  /** strconv.ParseUint's digit loop stops with ErrRange as soon as the
      value overflows 64 bits, before it reaches any later non-digit: the
      leading digits after the sign are worth more than 2^64 - 1. */
  predicate RunOverflows(s: string) {
    s != [] && var digits := if s[0] == '+' || s[0] == '-' then s[1..] else s;
    DigitsValue(DigitRun(digits)) > MaxUint64
  }

  /** What `id, _ := strconv.ParseInt(s, 10, 64)` leaves in id: the value;
      the nearest bound of int64 when out of range, including a run of
      digits that overflows before a later syntax error; 0 on any other
      syntax error. */
  function IdField(s: string): (id: int)
    ensures ParseInt(s).Some? ==> id == ParseInt(s).value
    ensures !IntSyntax(s) && !RunOverflows(s) ==> id == 0
    ensures !IntSyntax(s) && RunOverflows(s) ==> id == if s[0] == '-' then MinInt64 else MaxInt64
    ensures IntSyntax(s) && ParseInt(s).None? ==> id == if s[0] == '-' then MinInt64 else MaxInt64
    ensures MinInt64 <= id <= MaxInt64
  {
    if !IntSyntax(s) then
      if RunOverflows(s) then (if s[0] == '-' then MinInt64 else MaxInt64) else 0
    else
      var digits := if s[0] == '+' || s[0] == '-' then s[1..] else s;
      var v: int := if s[0] == '-' then -(DigitsValue(digits) as int) else DigitsValue(digits);
      if v < MinInt64 then MinInt64 else if v > MaxInt64 then MaxInt64 else v
  }

  // ---------------------------------------------------------------------
  // The parser
  // ---------------------------------------------------------------------

  /** One scanned line: five tab-separated fields (the fifth keeps any
      further tabs), or None, and selectRows skips the line. */
  function ParseRow(line: string): (r: Option<Entry>)
    ensures r.Some? ==> '\t' !in r.value.text && '\t' !in r.value.source && '\t' !in r.value.updatedAt
    ensures r.Some? ==> |SplitN(line, '\t', 5)| == 5 && (r.value.pinned <==> SplitN(line, '\t', 5)[4] == "1")
  {
    var parts := SplitN(line, '\t', 5);
    if |parts| != 5 then None
    else Some(Entry(IdField(parts[0]), parts[1], parts[2], parts[3], parts[4] == "1"))
  }

  /** A line is kept exactly when it has at least four tabs. */
  lemma ParseRowKeeps(line: string)
    ensures ParseRow(line).Some? <==> Count(line, '\t') >= 4
  {
    SplitNLength(line, '\t', 5);
  }

  /** The present values, in order. */
  function Somes<T>(xs: seq<Option<T>>): (r: seq<T>)
    ensures |r| <= |xs|
  {
    if xs == [] then []
    else
      var last := xs[|xs| - 1];
      Somes(xs[..|xs| - 1]) + (if last.Some? then [last.value] else [])
  }

  /** Values that are all present come out as they are. */
  lemma {:induction false} SomesAll<T>(xs: seq<Option<T>>, ys: seq<T>)
    requires |xs| == |ys|
    requires forall i :: 0 <= i < |xs| ==> xs[i] == Some(ys[i])
    ensures Somes(xs) == ys
  {
    if xs != [] {
      var n := |xs| - 1;
      SomesAll(xs[..n], ys[..n]);
      assert ys == ys[..n] + [ys[n]];
    }
  }

  /** ParseRow of every line. */
  function ParsedLines(lines: seq<string>): (r: seq<Option<Entry>>)
    ensures |r| == |lines|
    ensures forall i :: 0 <= i < |lines| ==> r[i] == ParseRow(lines[i])
  {
    seq(|lines|, i requires 0 <= i < |lines| => ParseRow(lines[i]))
  }

  /** The rows of the parsed lines, skipped lines left out, in line order. */
  function ParseRows(lines: seq<string>): (rows: seq<Entry>)
    ensures |rows| <= |lines|
  {
    Somes(ParsedLines(lines))
  }

  /** One more line adds its row, if it has one, at the end. */
  lemma ParseRowsSnoc(lines: seq<string>, i: nat)
    requires i < |lines|
    ensures var r := ParseRow(lines[i]);
            ParseRows(lines[..i + 1]) == ParseRows(lines[..i]) + (if r.Some? then [r.value] else [])
  {
    assert ParsedLines(lines[..i + 1])[..i] == ParsedLines(lines[..i]);
  }

  /** selectRows on the trimmed sqlite3 output: no rows for blank output,
      otherwise the parsed scanner lines. */
  function SelectRowsOf(out: string): seq<Entry> {
    if TrimSpace(out) == "" then [] else ParseRows(ScannerLines(out))
  }

  /** selectRows (main.go:405-432), with its scanner loop. */
  method SelectRows(out: string) returns (rows: seq<Entry>)
    ensures rows == SelectRowsOf(out)
  {
    if TrimSpace(out) == "" {
      return [];
    }
    var lines := ScannerLines(out);
    rows := [];
    for i := 0 to |lines|
      invariant rows == ParseRows(lines[..i])
    {
      ParseRowsSnoc(lines, i);
      var parts := SplitN(lines[i], '\t', 5);
      if |parts| != 5 {
        continue;
      }
      var id := IdField(parts[0]);
      rows := rows + [Entry(id, parts[1], parts[2], parts[3], parts[4] == "1")];
    }
    assert lines[..|lines|] == lines;
  }

  // ---------------------------------------------------------------------
  // The renderer: what sqlite3 prints in .mode tabs
  // ---------------------------------------------------------------------

  /** An integer column in decimal, with a minus sign when negative. */
  function ShowInt(n: int): (s: string)
    ensures |s| >= 1 && (IsDigit(s[0]) || s[0] == '-') && '\t' !in s && '\n' !in s
  {
    if n < 0 then "-" + ShowNat(-n) else ShowNat(n)
  }

  lemma ParseShowInt(n: int)
    requires MinInt64 <= n <= MaxInt64
    ensures IdField(ShowInt(n)) == n
  {
    if n < 0 {
      var s := ShowInt(n);
      assert s[1..] == ShowNat(-n);
      assert IntSyntax(s);
      DigitsValueShowNat(-n);
    } else {
      assert IntSyntax(ShowInt(n));
      ParseShowNat(n);
    }
  }

  function PinnedField(pinned: bool): string {
    if pinned then "1" else "0"
  }

  /** One output row: the five columns separated by tabs, values unquoted. */
  function RowLine(e: Entry): string {
    ShowInt(e.id) + "\t" + (e.text + "\t" + (e.source + "\t" + (e.updatedAt + "\t" + PinnedField(e.pinned))))
  }

  /** The rows' lines, in order. */
  function RowLines(rows: seq<Entry>): (lines: seq<string>)
    ensures |lines| == |rows|
    ensures forall i :: 0 <= i < |rows| ==> lines[i] == RowLine(rows[i])
  {
    seq(|rows|, i requires 0 <= i < |rows| => RowLine(rows[i]))
  }

  /** What runSQL returns for a SELECT in .mode tabs: every row followed by
      a line break, then trimmed. */
  function SqliteOutput(rows: seq<Entry>): string {
    if rows == [] then "" else TrimSpace(Join(RowLines(rows), "\n") + "\n")
  }

  /** The rows selected and read back through the text format. */
  function ReadBack(rows: seq<Entry>): seq<Entry> {
    SelectRowsOf(SqliteOutput(rows))
  }

  /** A row that survives the text format: an int64 id and no tab or line
      break in text, source or timestamp. */
  predicate Clean(e: Entry) {
    && MinInt64 <= e.id <= MaxInt64
    && '\t' !in e.text && '\n' !in e.text
    && '\t' !in e.source && '\n' !in e.source
    && '\t' !in e.updatedAt && '\n' !in e.updatedAt
  }

  // ---------------------------------------------------------------------
  // Splitting what was joined
  // ---------------------------------------------------------------------

  /** Split undoes a join of parts that do not contain the separator. */
  lemma {:induction false} SplitJoin(parts: seq<string>, c: char)
    requires |parts| >= 1
    requires forall i :: 0 <= i < |parts| ==> c !in parts[i]
    ensures Split(Join(parts, [c]), c) == parts
  {
    if |parts| == 1 {
      SplitWithout(parts[0], c);
    } else {
      var rest := parts[1..];
      assert parts == [parts[0]] + rest;
      JoinCons(parts[0], rest, [c]);
      SplitAfter(parts[0], c, Join(rest, [c]));
      SplitJoin(rest, c);
    }
  }

  /** The last part of a join of non-empty parts is its last character. */
  lemma {:induction false} JoinLast(parts: seq<string>, sep: string)
    requires |parts| >= 1 && parts[|parts| - 1] != []
    ensures var j := Join(parts, sep); |j| >= 1 && j[|j| - 1] == parts[|parts| - 1][|parts[|parts| - 1]| - 1]
  {
    if |parts| > 1 {
      JoinLast(parts[1..], sep);
    }
  }

  /** The first character of a join whose first part is non-empty. */
  lemma JoinFirst(parts: seq<string>, sep: string)
    requires |parts| >= 1 && parts[0] != []
    ensures var j := Join(parts, sep); |j| >= 1 && j[0] == parts[0][0]
  {
  }

  /** Two, three, four and five tab-free leading pieces, joined by tabs to
      the right, split back by SplitN with as many pieces; the last piece
      is kept whole, whatever it holds. */
  lemma SplitTwo(u: string, p: string)
    requires '\t' !in u
    ensures SplitN(u + "\t" + p, '\t', 2) == [u] + [p]
  {
    SplitNAfter(u, '\t', p, 2);
    assert SplitN(p, '\t', 1) == [p];
  }

  lemma SplitThree(s: string, u: string, p: string)
    requires '\t' !in s && '\t' !in u
    ensures SplitN(s + "\t" + (u + "\t" + p), '\t', 3) == [s] + ([u] + [p])
  {
    SplitTwo(u, p);
    SplitNAfter(s, '\t', u + "\t" + p, 3);
  }

  lemma SplitFour(t: string, s: string, u: string, p: string)
    requires '\t' !in t && '\t' !in s && '\t' !in u
    ensures SplitN(t + "\t" + (s + "\t" + (u + "\t" + p)), '\t', 4) == [t] + ([s] + ([u] + [p]))
  {
    SplitThree(s, u, p);
    SplitNAfter(t, '\t', s + "\t" + (u + "\t" + p), 4);
  }

  lemma SplitFive(a: string, t: string, s: string, u: string, p: string)
    requires '\t' !in a && '\t' !in t && '\t' !in s && '\t' !in u
    ensures SplitN(a + "\t" + (t + "\t" + (s + "\t" + (u + "\t" + p))), '\t', 5)
            == [a] + ([t] + ([s] + ([u] + [p])))
  {
    SplitFour(t, s, u, p);
    SplitNAfter(a, '\t', t + "\t" + (s + "\t" + (u + "\t" + p)), 5);
  }

  // ---------------------------------------------------------------------
  // The round trip and how it fails
  // ---------------------------------------------------------------------

  /** A line that SplitN cuts into five pieces parses to the row those
      pieces spell. */
  lemma ParseFive(line: string, a: string, t: string, s: string, u: string, p: string)
    requires SplitN(line, '\t', 5) == [a] + ([t] + ([s] + ([u] + [p])))
    ensures ParseRow(line) == Some(Entry(IdField(a), t, s, u, p == "1"))
  {
  }

  /** A clean row's line splits back into its five columns and parses to
      the row. */
  lemma RowLineParses(e: Entry)
    requires Clean(e)
    ensures ParseRow(RowLine(e)) == Some(e)
  {
    var a, p := ShowInt(e.id), PinnedField(e.pinned);
    SplitFive(a, e.text, e.source, e.updatedAt, p);
    ParseFive(RowLine(e), a, e.text, e.source, e.updatedAt, p);
    ParseShowInt(e.id);
  }

  /** The line of a row without line breaks in its text columns has none
      either, starts with the id and ends with the pinned digit. */
  lemma RowLineShape(e: Entry)
    requires '\n' !in e.text && '\n' !in e.source && '\n' !in e.updatedAt
    ensures var l := RowLine(e);
            && '\n' !in l && |l| >= 1
            && (IsDigit(l[0]) || l[0] == '-')
            && (l[|l| - 1] == '0' || l[|l| - 1] == '1')
            && !IsSpace(l[0]) && !IsSpace(l[|l| - 1])
  {
    var l := RowLine(e);
    var a, p := ShowInt(e.id), PinnedField(e.pinned);
    assert l[0] == a[0];
    assert l[|l| - 1] == p[0];
  }

  /** Lines that each parse to the corresponding row give those rows. */
  lemma ParseRowsAll(lines: seq<string>, rows: seq<Entry>)
    requires |lines| == |rows|
    requires forall i {:trigger ParseRow(lines[i])} :: 0 <= i < |lines| ==> ParseRow(lines[i]) == Some(rows[i])
    ensures ParseRows(lines) == rows
  {
    SomesAll(ParsedLines(lines), rows);
  }

  /** The scanner gives back lines that were joined with line breaks, when
      none of them contains one or ends with a CR and the last is not
      empty. */
  lemma ScanJoined(lines: seq<string>)
    requires |lines| >= 1 && lines[|lines| - 1] != []
    requires forall i :: 0 <= i < |lines| ==> '\n' !in lines[i]
    requires forall i {:trigger DropCR(lines[i])} :: 0 <= i < |lines| ==> DropCR(lines[i]) == lines[i]
    ensures ScannerLines(Join(lines, "\n")) == lines
  {
    var s := Join(lines, "\n");
    calc {
      ScannerLines(s);
      DropCRs(Tokens(Split(s, '\n')));
      { SplitJoin(lines, '\n'); }
      DropCRs(Tokens(lines));
      DropCRs(lines);
      { DropCRsNone(lines); }
      lines;
    }
  }

  /** Lines without a final CR pass DropCRs unchanged. */
  lemma DropCRsNone(lines: seq<string>)
    requires forall i {:trigger DropCR(lines[i])} :: 0 <= i < |lines| ==> DropCR(lines[i]) == lines[i]
    ensures DropCRs(lines) == lines
  {
    var r := DropCRs(lines);
    forall i | 0 <= i < |lines| ensures r[i] == lines[i] {
      assert r[i] == DropCR(lines[i]);
    }
  }

  /** Lines the scanner can give back once joined and trimmed: at least
      one, none holding a line break or ending in a CR, the first not
      starting and the last not ending with white space. */
  predicate Rejoinable(lines: seq<string>) {
    && |lines| >= 1
    && (forall i :: 0 <= i < |lines| ==> '\n' !in lines[i])
    && (forall i {:trigger DropCR(lines[i])} :: 0 <= i < |lines| ==> DropCR(lines[i]) == lines[i])
    && lines[0] != [] && !IsSpace(lines[0][0])
    && var l := lines[|lines| - 1]; l != [] && !IsSpace(l[|l| - 1])
  }

  /** What selectRows makes of lines joined by line breaks, each followed
      by one, as runSQL trims them: the lines parsed one by one, when no
      line holds a line break or ends with a CR and the output does not
      start or end with a space. */
  lemma SelectJoined(lines: seq<string>)
    requires Rejoinable(lines)
    ensures SelectRowsOf(TrimSpace(Join(lines, "\n") + "\n")) == ParseRows(lines)
  {
    var b := Join(lines, "\n");
    JoinFirst(lines, "\n");
    JoinLast(lines, "\n");
    TrimSpaceDropsFinal(b, '\n');
    ScanJoined(lines);
  }

  /** The lines of clean rows hold no line break and no final CR. */
  lemma CleanRowLinesScan(rows: seq<Entry>)
    requires forall i :: 0 <= i < |rows| ==> Clean(rows[i])
    ensures var lines := RowLines(rows);
            && (forall i :: 0 <= i < |lines| ==> '\n' !in lines[i])
            && (forall i {:trigger DropCR(lines[i])} :: 0 <= i < |lines| ==> DropCR(lines[i]) == lines[i])
  {
    var lines := RowLines(rows);
    forall i | 0 <= i < |lines|
      ensures '\n' !in lines[i] && DropCR(lines[i]) == lines[i]
    {
      RowLineShape(rows[i]);
    }
  }

  /** Each line of a clean row parses back to its row. */
  lemma CleanRowLinesParse(rows: seq<Entry>)
    requires forall i :: 0 <= i < |rows| ==> Clean(rows[i])
    ensures var lines := RowLines(rows);
            forall i {:trigger ParseRow(lines[i])} :: 0 <= i < |lines| ==> ParseRow(lines[i]) == Some(rows[i])
  {
    var lines := RowLines(rows);
    forall i | 0 <= i < |lines| ensures ParseRow(lines[i]) == Some(rows[i]) {
      RowLineParses(rows[i]);
    }
  }

  /** The output of clean rows does not start with a space: the first line
      starts with the first row's id. */
  lemma CleanRowLinesStart(rows: seq<Entry>)
    requires |rows| >= 1 && Clean(rows[0])
    ensures var lines := RowLines(rows); lines[0] != [] && !IsSpace(lines[0][0])
  {
    var l := RowLines(rows)[0];
    assert l == RowLine(rows[0]);
    RowLineShape(rows[0]);
  }

  /** Nor does it end with one: the last line ends with the pinned digit. */
  lemma CleanRowLinesEnd(rows: seq<Entry>)
    requires |rows| >= 1 && Clean(rows[|rows| - 1])
    ensures var lines := RowLines(rows); var l := lines[|lines| - 1]; l != [] && !IsSpace(l[|l| - 1])
  {
    var e := rows[|rows| - 1];
    var l := RowLines(rows)[|rows| - 1];
    assert l == RowLine(e);
    assert '\n' !in e.text && '\n' !in e.source && '\n' !in e.updatedAt;
    RowLineShape(e);
  }

  lemma CleanRowLinesRejoinable(rows: seq<Entry>)
    requires |rows| >= 1 && forall i :: 0 <= i < |rows| ==> Clean(rows[i])
    ensures Rejoinable(RowLines(rows))
  {
    CleanRowLinesScan(rows);
    CleanRowLinesStart(rows);
    CleanRowLinesEnd(rows);
  }

  /** Clean rows come back unchanged. */
  lemma ReadBackClean(rows: seq<Entry>)
    requires forall i :: 0 <= i < |rows| ==> Clean(rows[i])
    ensures ReadBack(rows) == rows
  {
    if rows != [] {
      var lines := RowLines(rows);
      assert SelectRowsOf(TrimSpace(Join(lines, "\n") + "\n")) == ParseRows(lines) by {
        CleanRowLinesRejoinable(rows);
        SelectJoined(lines);
      }
      assert ParseRows(lines) == rows by {
        CleanRowLinesParse(rows);
        ParseRowsAll(lines, rows);
      }
    }
  }

  /** A single row without line breaks in its text columns is read back as
      its one line parses. */
  lemma ReadBackOne(e: Entry)
    requires '\n' !in e.text && '\n' !in e.source && '\n' !in e.updatedAt
    ensures ReadBack([e]) == ParseRows([RowLine(e)])
  {
    var l := RowLine(e);
    assert RowLines([e]) == [l];
    assert Join([l], "\n") == l;
    RowLineShape(e);
    SelectJoined([l]);
  }

  /** The rows of one line: its row, if it has one. */
  lemma ParseRowsOne(l: string)
    ensures ParseRows([l]) == if ParseRow(l).Some? then [ParseRow(l).value] else []
  {
    assert [l][..0] == [];
  }

  /** The line of a row whose text holds a tab cuts into the columns
      shifted by one. */
  lemma TabLineParses(e: Entry, x: string, y: string)
    requires Clean(e.(text := x))
    requires '\t' !in y && '\n' !in y
    ensures ParseRow(RowLine(e.(text := x + "\t" + y))) == Some(Entry(e.id, x, y, e.source, false))
  {
    var l := RowLine(e.(text := x + "\t" + y));
    var a, p := ShowInt(e.id), PinnedField(e.pinned);
    var tail := e.updatedAt + "\t" + p;
    assert SplitN(l, '\t', 5) == [a] + ([x] + ([y] + ([e.source] + [tail]))) by {
      assert l == a + "\t" + (x + "\t" + (y + "\t" + (e.source + "\t" + tail)));
      SplitFive(a, x, y, e.source, tail);
    }
    assert tail != "1" by {
      assert |tail| >= 2;
    }
    ParseFive(l, a, x, y, e.source, tail);
    ParseShowInt(e.id);
  }

  /** A tab in the text shifts the columns: the text keeps only what comes
      before its tab, the rest becomes the source, the source becomes the
      timestamp, and the row reads as not pinned. */
  lemma TabInTextShiftsColumns(e: Entry, x: string, y: string)
    requires Clean(e.(text := x))
    requires '\t' !in y && '\n' !in y
    ensures ReadBack([e.(text := x + "\t" + y)]) == [Entry(e.id, x, y, e.source, false)]
  {
    var f := e.(text := x + "\t" + y);
    assert '\n' !in f.text;
    ReadBackOne(f);
    TabLineParses(e, x, y);
    ParseRowsOne(RowLine(f));
  }

  /** The line of a row whose text holds a line break is two lines: the id
      and the text before the break, then the rest of the row. */
  lemma NewlineSplitsLine(e: Entry, x: string, y: string)
    ensures var a, p := ShowInt(e.id), PinnedField(e.pinned);
            RowLines([e.(text := x + "\n" + y)])
            == [a + "\t" + x + "\n" + (y + "\t" + (e.source + "\t" + (e.updatedAt + "\t" + p)))]
  {
    var a, p := ShowInt(e.id), PinnedField(e.pinned);
    var r := e.source + "\t" + (e.updatedAt + "\t" + p);
    assert RowLine(e.(text := x + "\n" + y)) == a + "\t" + ((x + "\n" + y) + "\t" + r);
    assert (x + "\n" + y) + "\t" + r == x + "\n" + (y + "\t" + r);
    assert a + "\t" + (x + "\n" + (y + "\t" + r)) == a + "\t" + x + "\n" + (y + "\t" + r);
    assert RowLines([e.(text := x + "\n" + y)])[0] == RowLine(e.(text := x + "\n" + y));
  }

  /** A line with a single tab is not a row. */
  lemma OneTabSkipped(a: string, x: string)
    requires '\t' !in a && '\t' !in x
    ensures ParseRow(a + "\t" + x).None?
  {
    assert multiset(a + "\t" + x) == multiset(a) + multiset("\t") + multiset(x);
    ParseRowKeeps(a + "\t" + x);
  }

  /** Nor is a line with three. */
  lemma ThreeTabsSkipped(y: string, s: string, u: string, p: string)
    requires '\t' !in y && '\t' !in s && '\t' !in u && '\t' !in p
    ensures ParseRow(y + "\t" + (s + "\t" + (u + "\t" + p))).None?
  {
    var l := y + "\t" + (s + "\t" + (u + "\t" + p));
    assert multiset(l) == multiset(y) + multiset("\t") + (multiset(s) + multiset("\t") + (multiset(u) + multiset("\t") + multiset(p)));
    ParseRowKeeps(l);
  }

  /** Neither of those two lines has the four tabs of a row. */
  lemma NewlineHalvesSkipped(e: Entry, x: string, y: string)
    requires '\t' !in x && '\t' !in y && '\t' !in e.source && '\t' !in e.updatedAt
    ensures var a, p := ShowInt(e.id), PinnedField(e.pinned);
            ParseRows([a + "\t" + x, y + "\t" + (e.source + "\t" + (e.updatedAt + "\t" + p))]) == []
  {
    var a, p := ShowInt(e.id), PinnedField(e.pinned);
    var l1 := a + "\t" + x;
    var l2 := y + "\t" + (e.source + "\t" + (e.updatedAt + "\t" + p));
    OneTabSkipped(a, x);
    ThreeTabsSkipped(y, e.source, e.updatedAt, p);
    var ps := ParsedLines([l1, l2]);
    assert ps == [None, None];
    assert ps[..1] == [None] && ps[..1][..0] == [];
    assert Somes(ps[..1]) == [];
    assert Somes(ps) == [];
  }

  /** A line break in the text splits the row into two lines, neither of
      which has five columns: the row is not read back at all. */
  lemma NewlineInTextLosesRow(e: Entry, x: string, y: string)
    requires Clean(e.(text := x + y)) && '\r' !in x
    ensures ReadBack([e.(text := x + "\n" + y)]) == []
  {
    var a, p := ShowInt(e.id), PinnedField(e.pinned);
    assert '\t' !in x && '\n' !in x && '\t' !in y && '\n' !in y by {
      assert forall c :: c in x ==> c in x + y;
      assert forall c :: c in y ==> c in x + y;
    }
    var l1 := a + "\t" + x;
    var l2 := y + "\t" + (e.source + "\t" + (e.updatedAt + "\t" + p));
    NewlineSplitsLine(e, x, y);
    assert SqliteOutput([e.(text := x + "\n" + y)]) == TrimSpace(Join([l1, l2], "\n") + "\n") by {
      JoinCons(l1, [l2], "\n");
    }
    assert Rejoinable([l1, l2]) by {
      assert l1[0] == a[0] && l2[|l2| - 1] == p[0];
      assert DropCR(l1) == l1 by {
        assert l1[|l1| - 1] != '\r';
      }
      assert DropCR(l2) == l2 by {
        assert l2[|l2| - 1] == p[0];
      }
    }
    SelectJoined([l1, l2]);
    NewlineHalvesSkipped(e, x, y);
  }
}
