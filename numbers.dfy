/**
 * Decimal integers as the log viewer reads and writes them: `int(s.strip())`
 * when a log field is parsed, and `str(n)` when a cell of the table is drawn.
 */
module Numbers {
  import opened Wrappers

  /** The whitespace `str.strip()` removes, restricted to ASCII. */
  predicate IsSpace(c: char)
  {
    c == ' ' || (9 <= c as int <= 13) || (28 <= c as int <= 31)
  }

  predicate IsDigit(c: char)
  {
    '0' <= c <= '9'
  }

  predicate AllDigits(s: string)
  {
    forall i :: 0 <= i < |s| ==> IsDigit(s[i])
  }

  /**
   * `r` is `s` less a run of whitespace at its start and a run at its end:
   * a slice `s[i..j]` with only whitespace before `i` and after `j`.
   */
  ghost predicate IsTrimOf(s: string, r: string)
  {
    exists i, j :: TrimAt(s, r, i, j)
  }

  ghost predicate TrimAt(s: string, r: string, i: int, j: int)
  {
    && 0 <= i <= j <= |s| && r == s[i..j]
    && (forall k :: 0 <= k < i ==> IsSpace(s[k]))
    && (forall k :: j <= k < |s| ==> IsSpace(s[k]))
  }

  /** `s.strip()`: drop leading and trailing whitespace. */
  function Strip(s: string): (r: string)
    ensures IsTrimOf(s, r)
    ensures r != [] ==> !IsSpace(r[0]) && !IsSpace(r[|r| - 1])
    ensures |r| <= |s|
    ensures forall i :: 0 <= i < |s| && !IsSpace(s[i]) ==> r != []
    decreases |s|
  {
    if s == [] then
      TrimOfItself(s);
      s
    else if IsSpace(s[0]) then
      var r := Strip(s[1..]);
      TrimAfterFirst(s, r);
      r
    else if IsSpace(s[|s| - 1]) then
      var r := Strip(s[..|s| - 1]);
      TrimBeforeLast(s, r);
      r
    else
      TrimOfItself(s);
      s
  }

  lemma TrimOfItself(s: string)
    ensures IsTrimOf(s, s)
  {
    assert s == s[0..|s|];
    assert TrimAt(s, s, 0, |s|);
  }

  lemma TrimAfterFirst(s: string, r: string)
    requires s != [] && IsSpace(s[0]) && IsTrimOf(s[1..], r)
    ensures IsTrimOf(s, r)
  {
    var t := s[1..];
    var i, j :| TrimAt(t, r, i, j);
    assert r == s[i + 1..j + 1];
    forall k | 0 <= k < i + 1
      ensures IsSpace(s[k])
    {
      if k > 0 {
        assert s[k] == t[k - 1];
      }
    }
    forall k | j + 1 <= k < |s|
      ensures IsSpace(s[k])
    {
      assert s[k] == t[k - 1];
    }
    assert TrimAt(s, r, i + 1, j + 1);
  }

  lemma TrimBeforeLast(s: string, r: string)
    requires s != [] && IsSpace(s[|s| - 1]) && IsTrimOf(s[..|s| - 1], r)
    ensures IsTrimOf(s, r)
  {
    var t := s[..|s| - 1];
    var i, j :| TrimAt(t, r, i, j);
    assert r == s[i..j];
    forall k | 0 <= k < i
      ensures IsSpace(s[k])
    {
      assert s[k] == t[k];
    }
    forall k | j <= k < |s|
      ensures IsSpace(s[k])
    {
      if k < |s| - 1 {
        assert s[k] == t[k];
      }
    }
    assert TrimAt(s, r, i, j);
  }

  function DigitValue(c: char): (d: nat)
    requires IsDigit(c)
    ensures d < 10
  {
    c as int - '0' as int
  }

  function DigitChar(d: nat): (c: char)
    requires d < 10
    ensures IsDigit(c) && DigitValue(c) == d
  {
    ('0' as int + d) as char
  }

  /** The value of a non-empty run of decimal digits, most significant first. */
  function DigitsValue(s: string): nat
    requires AllDigits(s)
  {
    if s == [] then 0 else DigitsValue(s[..|s| - 1]) * 10 + DigitValue(s[|s| - 1])
  }

  /** `int(s)` for a stripped string: an optional sign followed by one or more digits. */
  function ParseSigned(t: string): (r: Option<int>)
    ensures r.Some? ==> t != [] && AllDigits(t[1..]) && (IsDigit(t[0]) || t[0] == '+' || t[0] == '-')
    ensures r.Some? ==> IsDigit(t[|t| - 1])
    ensures r.Some? && r.value < 0 ==> t[0] == '-'
    ensures t != [] && AllDigits(t) ==> r.Some?
  {
    if t != [] && (t[0] == '+' || t[0] == '-') then
      var digits := t[1..];
      if digits != [] && AllDigits(digits) then
        Some(if t[0] == '-' then -(DigitsValue(digits) as int) else DigitsValue(digits))
      else None
    else if t != [] && AllDigits(t) then Some(DigitsValue(t))
    else None
  }

  /** A leading zero adds nothing to a run of digits. */
  lemma {:induction false} LeadingZeroValue(t: string)
    requires AllDigits(t)
    ensures AllDigits("0" + t) && DigitsValue("0" + t) == DigitsValue(t)
  {
    var z := "0" + t;
    assert forall i :: 0 <= i < |z| ==> IsDigit(z[i]);
    if t != [] {
      assert z[..|z| - 1] == "0" + t[..|t| - 1];
      assert z[|z| - 1] == t[|t| - 1];
      LeadingZeroValue(t[..|t| - 1]);
    }
  }

  /**
   * Non-canonical digits are read as Python reads them: leading zeros
   * change nothing, `+` changes nothing, and `-` negates (so "-0" is 0).
   */
  lemma LeadingZerosAndSigns(t: string)
    requires t != [] && AllDigits(t)
    ensures ParseSigned("0" + t) == ParseSigned(t)
    ensures ParseSigned("+" + t) == ParseSigned(t)
    ensures ParseSigned("-" + t) == Some(-ParseSigned(t).value)
  {
    LeadingZeroValue(t);
    assert ("+" + t)[1..] == t;
    assert ("-" + t)[1..] == t;
  }

  /** `int(s.strip())`, with `None` where Python raises `ValueError`. */
  function ParseInt(s: string): (r: Option<int>)
    ensures (forall i :: 0 <= i < |s| ==> IsSpace(s[i])) ==> r.None?
    ensures r.Some? ==> exists i :: 0 <= i < |s| && IsDigit(s[i])
  {
    ParseSigned(Strip(s))
  }

  /** `str(n)` for a natural number: shortest decimal form. */
  function NatToString(n: nat): (s: string)
    ensures s != [] && AllDigits(s)
    ensures DigitsValue(s) == n
    ensures s[0] == '0' ==> n == 0 && s == "0"
  {
    if n < 10 then [DigitChar(n)]
    else
      var p := NatToString(n / 10);
      var s := p + [DigitChar(n % 10)];
      assert s[..|s| - 1] == p;
      s
  }

  /** `str(n)`: a minus sign for negative numbers, then the digits. */
  function IntToString(n: int): (s: string)
    ensures s != [] && AllDigits(s[1..])
    ensures s[0] == '-' <==> n < 0
    ensures n >= 0 ==> AllDigits(s)
    ensures n < 0 ==> |s| >= 2 && s[1] != '0'
    ensures n >= 0 && s[0] == '0' ==> s == "0"
  {
    if n < 0 then "-" + NatToString(-n) else NatToString(n)
  }

  lemma StripNoSpaceEnds(s: string)
    requires s != [] && !IsSpace(s[0]) && !IsSpace(s[|s| - 1])
    ensures Strip(s) == s
  {
  }

  /** Reading back what `str` wrote gives the same number. */
  lemma IntToStringRoundTrip(n: int)
    ensures ParseInt(IntToString(n)) == Some(n)
  {
    var s := IntToString(n);
    assert !IsSpace(s[0]) && !IsSpace(s[|s| - 1]);
    StripNoSpaceEnds(s);
    if n < 0 {
      assert s[1..] == NatToString(-n);
    }
  }

  /** The round trip, for every integer at once. */
  lemma IntToStringRoundTripAll()
    ensures forall n: int {:trigger IntToString(n)} :: ParseInt(IntToString(n)) == Some(n)
  {
    forall n: int {
      IntToStringRoundTrip(n);
    }
  }

  /** Whitespace around a field never changes what `int(s.strip())` reads. */
  lemma {:induction false} ParseIntIgnoresOuterSpace(s: string, c: char)
    requires IsSpace(c)
    ensures ParseInt([c] + s) == ParseInt(s)
    ensures ParseInt(s + [c]) == ParseInt(s)
  {
    assert ([c] + s)[1..] == s;
    StripIgnoresTrailingSpace(s, c);
  }

  lemma {:induction false} StripIgnoresTrailingSpace(s: string, c: char)
    requires IsSpace(c)
    ensures Strip(s + [c]) == Strip(s)
    decreases |s|
  {
    var t := s + [c];
    if s == [] {
      assert t[1..] == [];
    } else if IsSpace(s[0]) {
      assert t[1..] == s[1..] + [c];
      StripIgnoresTrailingSpace(s[1..], c);
    } else {
      assert t[..|t| - 1] == s;
    }
  }
}
