/** The parts of Go's strings and strconv packages that the core relies on,
    written over seq<char>.  Each function states what it promises; the
    lemmas at the end relate pairs of them (Split and Join, decimal
    printing and parsing). */
module GoStrings {
  import opened Wrappers

  // ---------------------------------------------------------------------
  // White space and trimming
  // ---------------------------------------------------------------------

  /** unicode.IsSpace: the ASCII spaces, U+0085, U+00A0 and the other
      Unicode White_Space code points. */
  predicate IsSpace(c: char) {
    || c == ' ' || c == '\t' || c == '\n' || c == '\U{000B}' || c == '\U{000C}' || c == '\r'
    || c == '\U{0085}' || c == '\U{00A0}' || c == '\U{1680}'
    || ('\U{2000}' <= c <= '\U{200A}')
    || c == '\U{2028}' || c == '\U{2029}' || c == '\U{202F}' || c == '\U{205F}' || c == '\U{3000}'
  }

  /** Every character of s is white space (this includes the empty string). */
  predicate AllSpace(s: string) {
    forall i :: 0 <= i < |s| ==> IsSpace(s[i])
  }

  /** strings.TrimSpace: drops the leading and the trailing white space. */
  function TrimSpace(s: string): (r: string)
    ensures |r| <= |s|
  {
    if |s| > 0 && IsSpace(s[0]) then TrimSpace(s[1..])
    else if |s| > 0 && IsSpace(s[|s| - 1]) then TrimSpace(s[..|s| - 1])
    else s
  }

  /** The trimmed text is the slice of s left once a white-space prefix
      and a white-space suffix are cut off. */
  lemma {:induction false} TrimSpaceSlice(s: string)
    ensures exists i, j :: 0 <= i <= j <= |s| && TrimSpace(s) == s[i..j] && AllSpace(s[..i]) && AllSpace(s[j..])
  {
    if |s| > 0 && IsSpace(s[0]) {
      var t := s[1..];
      TrimSpaceSlice(t);
      var i, j :| 0 <= i <= j <= |t| && TrimSpace(t) == t[i..j] && AllSpace(t[..i]) && AllSpace(t[j..]);
      TrimSpaceSliceFront(s, i, j);
    } else if |s| > 0 && IsSpace(s[|s| - 1]) {
      var t := s[..|s| - 1];
      TrimSpaceSlice(t);
      var i, j :| 0 <= i <= j <= |t| && TrimSpace(t) == t[i..j] && AllSpace(t[..i]) && AllSpace(t[j..]);
      TrimSpaceSliceBack(s, i, j);
    } else {
      assert s[0..|s|] == s && s[..0] == [] && s[|s|..] == [];
    }
  }

  /** The step of TrimSpaceSlice that drops a leading space. */
  lemma TrimSpaceSliceFront(s: string, i: int, j: int)
    requires |s| > 0 && IsSpace(s[0]) && 0 <= i <= j <= |s| - 1
    requires TrimSpace(s[1..]) == s[1..][i..j] && AllSpace(s[1..][..i]) && AllSpace(s[1..][j..])
    ensures TrimSpace(s) == s[i + 1..j + 1] && AllSpace(s[..i + 1]) && AllSpace(s[j + 1..])
  {
    var t := s[1..];
    assert t[i..j] == s[i + 1..j + 1] && t[j..] == s[j + 1..];
    var pre := s[..i + 1];
    forall k | 0 <= k < |pre| ensures IsSpace(pre[k]) {
      if k > 0 { assert pre[k] == t[..i][k - 1]; }
    }
  }

  /** The step of TrimSpaceSlice that drops a trailing space. */
  lemma TrimSpaceSliceBack(s: string, i: int, j: int)
    requires |s| > 0 && !IsSpace(s[0]) && IsSpace(s[|s| - 1]) && 0 <= i <= j <= |s| - 1
    requires TrimSpace(s[..|s| - 1]) == s[..|s| - 1][i..j] && AllSpace(s[..|s| - 1][..i]) && AllSpace(s[..|s| - 1][j..])
    ensures TrimSpace(s) == s[i..j] && AllSpace(s[..i]) && AllSpace(s[j..])
  {
    var t := s[..|s| - 1];
    assert TrimSpace(s) == TrimSpace(t);
    assert t[i..j] == s[i..j] && t[..i] == s[..i];
    var suf := s[j..];
    forall k | 0 <= k < |suf| ensures IsSpace(suf[k]) {
      if k < |t| - j { assert suf[k] == t[j..][k]; } else { assert k == |s| - 1 - j && suf[k] == s[|s| - 1]; }
    }
  }

  /** The trimmed text starts and ends with a non-space character, is empty
      exactly when s is all white space, and is s itself when s has no white
      space at either end, and is what is left once a white-space prefix and
      a white-space suffix are cut off. */
  lemma {:induction false} TrimSpaceSpec(s: string)
    ensures var r := TrimSpace(s);
            && (r == [] || (!IsSpace(r[0]) && !IsSpace(r[|r| - 1])))
            && (r == [] <==> AllSpace(s))
            && (|s| > 0 && !IsSpace(s[0]) && !IsSpace(s[|s| - 1]) ==> r == s)
            && (exists i, j :: 0 <= i <= j <= |s| && r == s[i..j] && AllSpace(s[..i]) && AllSpace(s[j..]))
  {
    TrimSpaceSlice(s);
    if |s| > 0 && IsSpace(s[0]) {
      TrimSpaceSpec(s[1..]);
      assert AllSpace(s) <==> AllSpace(s[1..]) by {
        if AllSpace(s[1..]) {
          forall i | 0 <= i < |s| ensures IsSpace(s[i]) {
            if i > 0 { assert s[i] == s[1..][i - 1]; }
          }
        }
      }
    } else if |s| > 0 && IsSpace(s[|s| - 1]) {
      var t := s[..|s| - 1];
      TrimSpaceSpec(t);
      assert !AllSpace(s);
      assert |t| > 0 && t[0] == s[0];
      assert !AllSpace(t);
    }
  }

  /** A single trailing space after text with no white space at either end
      is all that TrimSpace removes (a line break after the last line of
      command output). */
  lemma TrimSpaceDropsFinal(x: string, c: char)
    requires |x| > 0 && !IsSpace(x[0]) && !IsSpace(x[|x| - 1]) && IsSpace(c)
    ensures TrimSpace(x + [c]) == x
  {
    var s := x + [c];
    assert s[0] == x[0] && s[..|s| - 1] == x;
  }

  /** Trimming twice is trimming once. */
  lemma TrimSpaceIdempotent(s: string)
    ensures TrimSpace(TrimSpace(s)) == TrimSpace(s)
  {
    var r := TrimSpace(s);
    TrimSpaceSpec(s);
    TrimSpaceSpec(r);
  }

  // ---------------------------------------------------------------------
  // Replacement
  // ---------------------------------------------------------------------

  /** strings.ReplaceAll(s, string(c), t): every occurrence of c becomes t. */
  function ReplaceChar(s: string, c: char, t: string): (r: string)
    ensures c !in s ==> r == s
    ensures forall x :: x in r ==> x in t || (x != c && x in s)
    ensures |t| <= 1 ==> |r| <= |s|
  {
    if s == [] then [] else (if s[0] == c then t else [s[0]]) + ReplaceChar(s[1..], c, t)
  }

  /** Replacing in a concatenation whose first part is not empty starts
      with the replacement of that part's first character. */
  lemma ReplaceCharHead(a: string, b: string, c: char, t: string)
    requires a != []
    ensures ReplaceChar(a + b, c, t) == (if a[0] == c then t else [a[0]]) + ReplaceChar(a[1..] + b, c, t)
  {
    assert (a + b)[0] == a[0] && (a + b)[1..] == a[1..] + b;
  }

  /** Replacing in a concatenation replaces in each part. */
  lemma {:induction false} ReplaceCharAppend(a: string, b: string, c: char, t: string)
    ensures ReplaceChar(a + b, c, t) == ReplaceChar(a, c, t) + ReplaceChar(b, c, t)
  {
    if a != [] {
      var head := if a[0] == c then t else [a[0]];
      ReplaceCharHead(a, b, c, t);
      ReplaceCharAppend(a[1..], b, c, t);
      assert ReplaceChar(a, c, t) == head + ReplaceChar(a[1..], c, t);
      assert head + (ReplaceChar(a[1..], c, t) + ReplaceChar(b, c, t))
          == (head + ReplaceChar(a[1..], c, t)) + ReplaceChar(b, c, t);
    } else {
      assert a + b == b;
    }
  }

  /** strings.ReplaceAll(s, [a, b], t) for a two-character pattern: the
      occurrences are found left to right and do not overlap. */
  function ReplacePair(s: string, a: char, b: char, t: string): (r: string)
    ensures a !in s ==> r == s
    ensures forall x :: x in r ==> x in t || x in s
  {
    if |s| >= 2 && s[0] == a && s[1] == b then t + ReplacePair(s[2..], a, b, t)
    else if s == [] then []
    else [s[0]] + ReplacePair(s[1..], a, b, t)
  }

  // ---------------------------------------------------------------------
  // Searching
  // ---------------------------------------------------------------------

  /** The position of the first c in s, or |s| when there is none. */
  function IndexOfChar(s: string, c: char): (i: nat)
    ensures i <= |s|
    ensures i < |s| ==> s[i] == c
    ensures c !in s[..i]
  {
    if s == [] then 0
    else if s[0] == c then 0
    else
      var j := IndexOfChar(s[1..], c);
      assert s[..j + 1] == [s[0]] + s[1..][..j];
      j + 1
  }

  /** strings.LastIndex(s, string(c)): the position of the last c, or -1. */
  function LastIndexOfChar(s: string, c: char): (i: int)
    ensures -1 <= i < |s|
    ensures i >= 0 ==> s[i] == c
    ensures forall j :: i < j < |s| ==> s[j] != c
  {
    if s == [] then -1
    else if s[|s| - 1] == c then |s| - 1
    else LastIndexOfChar(s[..|s| - 1], c)
  }

  /** sub occurs in s starting at position j. */
  predicate OccursAt(s: string, sub: string, j: int) {
    0 <= j && j + |sub| <= |s| && s[j..j + |sub|] == sub
  }

  /** The first occurrence of sub in s at or after k, or -1. */
  function IndexFrom(s: string, sub: string, k: nat): (i: int)
    ensures i == -1 || (k <= i && OccursAt(s, sub, i))
    ensures forall j :: k <= j && (i == -1 || j < i) ==> !OccursAt(s, sub, j)
    decreases |s| - k
  {
    if k + |sub| > |s| then -1
    else if s[k..k + |sub|] == sub then k
    else IndexFrom(s, sub, k + 1)
  }

  /** strings.Index / String.prototype.indexOf: the first position at which
      sub occurs in s, or -1 when it occurs nowhere. */
  function IndexOf(s: string, sub: string): (i: int)
    ensures i == -1 || OccursAt(s, sub, i)
    ensures forall j :: 0 <= j && (i == -1 || j < i) ==> !OccursAt(s, sub, j)
  {
    IndexFrom(s, sub, 0)
  }

  /** strings.HasPrefix. */
  predicate HasPrefix(s: string, prefix: string) {
    |prefix| <= |s| && s[..|prefix|] == prefix
  }

  /** strings.Contains. */
  predicate Contains(s: string, sub: string) {
    IndexOf(s, sub) >= 0
  }

  /** ASCII lower-casing of one character. */
  function LowerChar(c: char): char {
    if 'A' <= c <= 'Z' then (c as int + 32) as char else c
  }

  /** Length-preserving ASCII lower-casing; the model's stand-in for
      strings.ToLower, SQLite lower() and String.prototype.toLowerCase. */
  function Lower(s: string): (r: string)
    ensures |r| == |s|
    ensures forall i :: 0 <= i < |s| ==> r[i] == LowerChar(s[i])
  {
    seq(|s|, i requires 0 <= i < |s| => LowerChar(s[i]))
  }

  /** Text without upper-case ASCII letters is its own lower-casing. */
  lemma LowerOfLower(s: string)
    requires forall i :: 0 <= i < |s| ==> !('A' <= s[i] <= 'Z')
    ensures Lower(s) == s
  {
  }

  // ---------------------------------------------------------------------
  // Split and Join
  // ---------------------------------------------------------------------

  /** strings.Split(s, string(c)): the pieces between the occurrences of c;
      always at least one piece, and no piece contains c. */
  function Split(s: string, c: char): (parts: seq<string>)
    ensures |parts| >= 1
    ensures forall i :: 0 <= i < |parts| ==> c !in parts[i]
    decreases |s|
  {
    var i := IndexOfChar(s, c);
    if i == |s| then [s] else [s[..i]] + Split(s[i + 1..], c)
  }

  /** strings.Join. */
  function Join(parts: seq<string>, sep: string): string {
    if |parts| == 0 then ""
    else if |parts| == 1 then parts[0]
    else parts[0] + sep + Join(parts[1..], sep)
  }

  /** Joining a first part onto at least one more puts the separator
      between them. */
  lemma JoinCons(p: string, rest: seq<string>, sep: string)
    requires |rest| >= 1
    ensures Join([p] + rest, sep) == p + sep + Join(rest, sep)
  {
    assert ([p] + rest)[1..] == rest;
  }

  /** A string is the text before position i, the character there, and the
      text after it. */
  lemma CutAt(s: string, i: int)
    requires 0 <= i < |s|
    ensures s == s[..i] + [s[i]] + s[i + 1..]
  {
    var tail := s[i..];
    assert tail[0] == s[i] && tail[1..] == s[i + 1..];
    assert tail == [s[i]] + tail[1..];
    assert s == s[..i] + tail;
  }

  /** Joining the pieces of a split with the separator gives back the string. */
  lemma {:induction false} JoinSplit(s: string, c: char)
    ensures Join(Split(s, c), [c]) == s
    decreases |s|
  {
    var i := IndexOfChar(s, c);
    if i < |s| {
      var rest := Split(s[i + 1..], c);
      JoinSplit(s[i + 1..], c);
      assert Split(s, c) == [s[..i]] + rest;
      JoinCons(s[..i], rest, [c]);
      CutAt(s, i);
    } else {
      assert Split(s, c) == [s];
    }
  }

  /** A character that is in no part and not in the separator is not in the join. */
  lemma {:induction false} JoinAvoids(parts: seq<string>, sep: string, x: char)
    requires x !in sep
    requires forall i :: 0 <= i < |parts| ==> x !in parts[i]
    ensures x !in Join(parts, sep)
  {
    if |parts| > 1 {
      JoinAvoids(parts[1..], sep, x);
    }
  }

  // ---------------------------------------------------------------------
  // Decimal integers (strconv)
  // ---------------------------------------------------------------------

  const MaxInt64: int := 0x7FFF_FFFF_FFFF_FFFF
  const MinInt64: int := -0x8000_0000_0000_0000

  predicate IsDigit(c: char) {
    '0' <= c <= '9'
  }

  predicate AllDigits(s: string) {
    forall i :: 0 <= i < |s| ==> IsDigit(s[i])
  }

  function DigitChar(d: nat): (c: char)
    requires d < 10
    ensures IsDigit(c)
  {
    ('0' as int + d) as char
  }

  function DigitValue(c: char): (d: nat)
    requires IsDigit(c)
    ensures d < 10
  {
    c as int - '0' as int
  }

  /** The value of a string of decimal digits. */
  function DigitsValue(s: string): nat
    requires AllDigits(s)
  {
    if s == [] then 0 else DigitsValue(s[..|s| - 1]) * 10 + DigitValue(s[|s| - 1])
  }

  /** strconv.Itoa / FormatInt(n, 10) on a non-negative number, and the
      decimal form JavaScript gives a non-negative integer. */
  function ShowNat(n: nat): (s: string)
    ensures |s| >= 1 && AllDigits(s)
  {
    if n < 10 then [DigitChar(n)] else ShowNat(n / 10) + [DigitChar(n % 10)]
  }

  /** strconv.ParseInt(s, 10, 64), and strconv.Atoi on a 64-bit platform:
      an optional sign followed by at least one decimal digit, in the
      range of int64; anything else is an error (None). */
  function ParseInt(s: string): (r: Option<int>)
    ensures r.Some? ==> MinInt64 <= r.value <= MaxInt64
    ensures r.Some? ==> s != [] && (IsDigit(s[0]) || s[0] == '+' || s[0] == '-')
  {
    if s == [] then None
    else
      var digits := if s[0] == '+' || s[0] == '-' then s[1..] else s;
      if digits == [] || !AllDigits(digits) then None
      else
        var v: int := if s[0] == '-' then -(DigitsValue(digits) as int) else DigitsValue(digits);
        if MinInt64 <= v <= MaxInt64 then Some(v) else None
  }

  /** Reading back the decimal form of a number gives the number. */
  lemma {:induction false} DigitsValueShowNat(n: nat)
    ensures DigitsValue(ShowNat(n)) == n
  {
    if n >= 10 {
      var s := ShowNat(n);
      assert s[..|s| - 1] == ShowNat(n / 10);
      DigitsValueShowNat(n / 10);
    }
  }

  /** Printing a non-negative int64 and parsing it back is the identity. */
  lemma ParseShowNat(n: nat)
    requires n <= MaxInt64
    ensures ParseInt(ShowNat(n)) == Some(n)
  {
    DigitsValueShowNat(n);
  }
}
