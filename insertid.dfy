/** How SqliteHistory.Insert reads the new row's id from the sqlite3
    output (internal/history/sqlite.go:57-74): trim the output, split it
    into lines, scan backwards for the last non-blank line, parse it as a
    64-bit integer and accept it only when it is positive. */
module InsertId {
  import opened Wrappers
  import opened GoStrings

  /** errNotFound, and the error strconv.ParseInt reports. */
  datatype InsertIdError = NotFound | BadInteger

  /** The index of the last line whose trimmed text is not empty, or -1. */
  function LastNonBlank(lines: seq<string>): (j: int)
    ensures -1 <= j < |lines|
    ensures j >= 0 ==> !AllSpace(lines[j])
    ensures forall k :: j < k < |lines| ==> AllSpace(lines[k])
  {
    if lines == [] then -1
    else if !AllSpace(lines[|lines| - 1]) then |lines| - 1
    else LastNonBlank(lines[..|lines| - 1])
  }

  /** The backward scan of lines 58-64: the trimmed last non-blank line,
      or "" when every line is blank. */
  method LastLine(lines: seq<string>) returns (last: string)
    ensures last == "" <==> LastNonBlank(lines) < 0
    ensures last != "" ==> last == TrimSpace(lines[LastNonBlank(lines)])
  {
    last := "";
    var i := |lines| - 1;
    while i >= 0
      invariant -1 <= i < |lines|
      invariant forall k :: i < k < |lines| ==> AllSpace(lines[k])
      invariant last == ""
    {
      var s := TrimSpace(lines[i]);
      TrimSpaceSpec(lines[i]);
      if s != "" {
        last := s;
        break;
      }
      i := i - 1;
    }
  }

  /** The id Insert accepts from an output, or the error it returns. */
  function InsertIdOf(out: string): (r: Result<int, InsertIdError>)
    ensures r.Ok? ==> 0 < r.value <= MaxInt64
  {
    var lines := Split(TrimSpace(out), '\n');
    var j := LastNonBlank(lines);
    if j < 0 then Err(NotFound)
    else
      match ParseInt(TrimSpace(lines[j]))
      case None => Err(BadInteger)
      case Some(id) => if id <= 0 then Err(NotFound) else Ok(id)
  }

  /** Lines 57-74 as written: split, scan, parse, check. */
  method ParseInsertOutput(out: string) returns (r: Result<int, InsertIdError>)
    ensures r == InsertIdOf(out)
  {
    var lines := Split(TrimSpace(out), '\n');
    var lastLine := LastLine(lines);
    if lastLine == "" {
      return Err(NotFound);
    }
    var parsed := ParseInt(lastLine);
    if parsed.None? {
      return Err(BadInteger);
    }
    if parsed.value <= 0 {
      return Err(NotFound);
    }
    r := Ok(parsed.value);
  }

  /** The last piece of a split is a suffix of the string, and it is not
      empty when the string does not end with the separator. */
  lemma {:induction false} LastPieceOfSplit(s: string, c: char)
    ensures var parts := Split(s, c);
            var last := parts[|parts| - 1];
            |last| <= |s| && last == s[|s| - |last|..] &&
            (|s| > 0 && s[|s| - 1] != c ==> |last| > 0)
    decreases |s|
  {
    var i := IndexOfChar(s, c);
    if i < |s| {
      var t := s[i + 1..];
      LastPieceOfSplit(t, c);
      assert Split(s, c)[|Split(s, c)| - 1] == Split(t, c)[|Split(t, c)| - 1];
      if |s| > 0 && s[|s| - 1] != c {
        assert |t| > 0 && t[|t| - 1] == s[|s| - 1];
      }
    }
  }

  /** A string that ends in a non-space character has a non-blank last line. */
  lemma LastLineNotBlank(t: string)
    requires |t| > 0 && !IsSpace(t[|t| - 1])
    ensures var lines := Split(t, '\n');
            LastNonBlank(lines) == |lines| - 1
  {
    var lines := Split(t, '\n');
    LastPieceOfSplit(t, '\n');
    var last := lines[|lines| - 1];
    assert last[|last| - 1] == t[|t| - 1];
    assert !AllSpace(last);
  }

  /** Once the output is trimmed its last line is never blank, so the
      backward scan stops at the very last line. */
  lemma ScanStopsAtLastLine(out: string)
    requires !AllSpace(out)
    ensures var lines := Split(TrimSpace(out), '\n');
            LastNonBlank(lines) == |lines| - 1
  {
    var t := TrimSpace(out);
    TrimSpaceSpec(out);
    assert |t| > 0 && !IsSpace(t[|t| - 1]);
    LastLineNotBlank(t);
  }

  /** Blank output has no id line: errNotFound. */
  lemma InsertIdOfBlank(out: string)
    requires AllSpace(out)
    ensures InsertIdOf(out) == Err(NotFound)
  {
    TrimSpaceSpec(out);
    assert TrimSpace(out) == "";
    assert Split("", '\n') == [""];
    assert AllSpace("");
  }

  /** The output of SELECT last_insert_rowid() for a positive id reads
      back as that id. */
  lemma InsertIdOfRowid(n: int)
    requires 0 < n <= MaxInt64
    ensures InsertIdOf(ShowNat(n)) == Ok(n)
  {
    var s := ShowNat(n);
    ParseShowNat(n);
    assert !IsSpace(s[0]) && !IsSpace(s[|s| - 1]);
    TrimSpaceSpec(s);
    assert TrimSpace(s) == s;
    assert '\n' !in s;
    assert Split(s, '\n') == [s];
  }

  /** A zero id is refused with errNotFound. */
  lemma InsertIdRejectsZero()
    ensures InsertIdOf("0") == Err(NotFound)
  {
    assert !IsSpace('0');
    assert TrimSpace("0") == "0";
    assert IndexOfChar("0", '\n') == 1;
    assert Split("0", '\n') == ["0"];
    assert DigitsValue("0") == 0 by { assert "0"[..0] == ""; }
    assert ParseInt("0") == Some(0);
  }

  /** A line that is not a number is refused with the parse error. */
  lemma InsertIdRejectsWord()
    ensures InsertIdOf("ok") == Err(BadInteger)
  {
    assert TrimSpace("ok") == "ok" by {
      assert !IsSpace('o') && !IsSpace('k');
    }
    assert Split("ok", '\n') == ["ok"] by {
      assert "ok"[1..] == "k" && IndexOfChar("k", '\n') == 1;
      assert IndexOfChar("ok", '\n') == 2;
    }
    assert !IsDigit("ok"[0]);
  }
}
