/** relativeTime of web/src/utils/format.js over an integer millisecond
    delta (now minus the timestamp).  Reading the clock and parsing the ISO
    text are left out: the delta is a parameter, and so is the
    locale-formatted date used for a week or more. */
module WebFormat {
  import opened Wrappers
  import opened GoStrings

  // Math.floor(a / n) for the positive constants n below is a / n: Dafny's
  // division rounds towards minus infinity when the divisor is positive.

  /** The ISO text is null, undefined or empty. */
  predicate Falsy(iso: Option<string>) {
    iso.None? || iso.value == ""
  }

  /** relativeTime: with s the delta floored to whole seconds, "just now"
      below 10 s (negative deltas from future timestamps included), then
      seconds below a minute, minutes below an hour, hours below a day and
      days below a week; the buckets are contiguous ranges of s and the
      number shown is s floored to the bucket's unit. */
  function RelativeTime(iso: Option<string>, deltaMs: int, localeDate: string): (r: string)
    ensures Falsy(iso) ==> r == ""
    ensures !Falsy(iso) ==>
      var s := deltaMs / 1000;
      && (s < 10 ==> r == "just now")
      && (10 <= s < 60 ==> r == ShowNat(s) + "s ago")
      && (60 <= s < 3600 ==> r == ShowNat(s / 60) + "m ago")
      && (3600 <= s < 86400 ==> r == ShowNat(s / 3600) + "h ago")
      && (86400 <= s < 604800 ==> r == ShowNat(s / 86400) + "d ago")
      && (604800 <= s ==> r == localeDate)
  {
    if Falsy(iso) then ""
    else
      var s := deltaMs / 1000;
      if s < 10 then "just now"
      else if s < 60 then ShowNat(s) + "s ago"
      else
        var m := s / 60;
        if m < 60 then ShowNat(m) + "m ago"
        else
          var h := m / 60;
          assert h == s / 3600;
          if h < 24 then ShowNat(h) + "h ago"
          else
            var day := h / 24;
            assert day == s / 86400;
            if day < 7 then ShowNat(day) + "d ago"
            else localeDate
  }

  /** A timestamp up to 9.999 seconds old, or any time in the future, is
      "just now". */
  lemma JustNowBelowTenSeconds(iso: Option<string>, deltaMs: int, localeDate: string)
    requires !Falsy(iso) && deltaMs < 10000
    ensures RelativeTime(iso, deltaMs, localeDate) == "just now"
  {
  }
}
