/** Decimal strings: strconv's formatting and parsing, and the comparison made by the Lua script. */
module Decimal {
  import opened Prelude

  predicate IsDigit(c: char) { '0' <= c <= '9' }

  predicate AllDigits(s: string) { forall i :: 0 <= i < |s| ==> IsDigit(s[i]) }

  function DigitValue(c: char): nat
    requires IsDigit(c)
  {
    c as int - '0' as int
  }

  function Digit(d: nat): char
    requires d < 10
  {
    ('0' as int + d) as char
  }

  /** The number a digit string denotes. */
  function Value(s: string): nat
    requires AllDigits(s)
  {
    if s == "" then 0 else Value(s[..|s| - 1]) * 10 + DigitValue(s[|s| - 1])
  }

  /** strconv.FormatUint(n, 10). */
  function FormatUint(n: nat): string {
    if n < 10 then [Digit(n)] else FormatUint(n / 10) + [Digit(n % 10)]
  }

  /** strconv.ParseUint(s, 10, 64). */
  function ParseUint(s: string): Option<nat> {
    if s == "" || !AllDigits(s) || Value(s) >= TWO_64 then None else Some(Value(s))
  }

  /** strconv.FormatInt(i, 10). */
  function FormatInt(i: int): string {
    if i < 0 then "-" + FormatUint(-i) else FormatUint(i)
  }

  /** strconv.ParseInt(s, 10, 64). */
  function ParseInt(s: string): Option<int> {
    if s == "" then None
    else
      var negative := s[0] == '-';
      var magnitude := ParseUint(if s[0] == '-' || s[0] == '+' then s[1..] else s);
      if magnitude.None? then None
      else if !negative && magnitude.value >= TWO_63 then None
      else if negative && magnitude.value > TWO_63 then None
      else
        var n: int := magnitude.value;
        Some(if negative then -n else n)
  }

  /** No sign, no leading zero. */
  predicate Canonical(s: string) {
    AllDigits(s) && s != "" && (s[0] == '0' ==> |s| == 1)
  }

  lemma {:induction false} FormatIsCanonical(n: nat)
    ensures Canonical(FormatUint(n)) && Value(FormatUint(n)) == n
    ensures n > 0 ==> FormatUint(n)[0] != '0'
  {
    if n >= 10 {
      FormatIsCanonical(n / 10);
      var s := FormatUint(n);
      assert s[..|s| - 1] == FormatUint(n / 10);
    }
  }

  /** The canonical strings are exactly the printed ones. */
  lemma CanonicalIsFormatted(s: string)
    ensures Canonical(s) <==> exists n: nat :: FormatUint(n) == s
  {
    if Canonical(s) {
      FormatInvertsValue(s);
    }
    if n: nat :| FormatUint(n) == s {
      FormatIsCanonical(n);
    }
  }

  lemma {:induction false} FormatInvertsValue(s: string)
    requires Canonical(s)
    ensures FormatUint(Value(s)) == s
  {
    var init := s[..|s| - 1];
    if |s| == 1 {
      assert init == "";
    } else {
      FormatInvertsValue(init);
      PositiveValue(init);
      assert s == init + [s[|s| - 1]];
    }
  }

  lemma {:induction false} PositiveValue(s: string)
    requires AllDigits(s) && s != "" && s[0] != '0'
    ensures Value(s) > 0
  {
    if |s| > 1 {
      PositiveValue(s[..|s| - 1]);
    }
  }

  /** Printing then parsing is the identity on every uint64 and every int64. */
  lemma DecimalRoundTrip(n: nat, i: int)
    requires n < TWO_64 && -TWO_63 <= i < TWO_63
    ensures ParseUint(FormatUint(n)) == Some(n)
    ensures ParseInt(FormatInt(i)) == Some(i)
    ensures FormatInt(i) != ""
  {
    FormatIsCanonical(n);
    FormatIsCanonical(if i < 0 then -i else i);
    if i < 0 {
      assert FormatInt(i)[1..] == FormatUint(-i);
    }
  }

  /** Exactly the digit strings below 2^64 parse, leading zeros included. */
  lemma ParseUintIsExact(s: string, n: nat)
    ensures ParseUint(s) == Some(n) <==> s != "" && AllDigits(s) && Value(s) == n < 0x1_0000_0000_0000_0000
  {
  }

  /** Exactly the optionally signed digit strings in the range of an int64 parse. */
  lemma ParseIntIsExact(s: string, digits: string, i: int)
    requires digits != "" && AllDigits(digits)
    ensures s == digits || s == "+" + digits ==>
      (ParseInt(s) == Some(i) <==> i == Value(digits) < 0x8000_0000_0000_0000)
    ensures s == "-" + digits ==> (ParseInt(s) == Some(i) <==> -i == Value(digits) <= 0x8000_0000_0000_0000)
    ensures ParseInt(s).Some? ==> AllDigits(s) || (s[0] in {'+', '-'} && AllDigits(s[1..]) && s[1..] != "")
  {
    assert IsDigit(digits[0]);
    if s == "+" + digits || s == "-" + digits {
      assert s[1..] == digits;
    }
  }

  // ---------------------------------------------------------------------------------------------
  // The Lua comparison
  // ---------------------------------------------------------------------------------------------

  /** Byte-wise lexicographic order. */
  predicate LexGreater(a: string, b: string) {
    a != "" && (b == "" || (if a[0] == b[0] then LexGreater(a[1..], b[1..]) else a[0] > b[0]))
  }

  /** The script's test for refusing the incoming version. */
  predicate ScriptRejects(current: string, incoming: string) {
    |current| > |incoming| || (|current| == |incoming| && LexGreater(current, incoming))
  }

  lemma {:induction false} LexGreaterSnoc(a: string, b: string, x: char, y: char)
    requires |a| == |b|
    ensures LexGreater(a + [x], b + [y]) <==> LexGreater(a, b) || (a == b && x > y)
  {
    if a != "" {
      assert (a + [x])[1..] == a[1..] + [x] && (b + [y])[1..] == b[1..] + [y];
      LexGreaterSnoc(a[1..], b[1..], x, y);
      assert a == [a[0]] + a[1..] && b == [b[0]] + b[1..];
    }
  }

  lemma {:induction false} SameLengthOrder(a: string, b: string)
    requires AllDigits(a) && AllDigits(b) && |a| == |b|
    ensures LexGreater(a, b) <==> Value(a) > Value(b)
    ensures Value(a) == Value(b) ==> a == b
  {
    if a != "" {
      var a', b' := a[..|a| - 1], b[..|b| - 1];
      SameLengthOrder(a', b');
      LexGreaterSnoc(a', b', a[|a| - 1], b[|b| - 1]);
      assert a == a' + [a[|a| - 1]] && b == b' + [b[|b| - 1]];
    }
  }

  lemma {:induction false} LongerIsGreater(a: string, b: string)
    requires AllDigits(a) && AllDigits(b) && |a| > |b| && a[0] != '0'
    ensures Value(a) > Value(b)
    decreases |a|
  {
    if b == "" {
      PositiveValue(a);
    } else {
      var a', b' := a[..|a| - 1], b[..|b| - 1];
      LongerIsGreater(a', b');
    }
  }

  /** On canonical decimals of any length the script's string test is numeric comparison. */
  lemma ScriptComparesNumbers(current: string, incoming: string)
    requires Canonical(current) && Canonical(incoming)
    ensures ScriptRejects(current, incoming) <==> Value(current) > Value(incoming)
  {
    if |current| > |incoming| {
      LongerIsGreater(current, incoming);
    } else if |current| < |incoming| {
      LongerIsGreater(incoming, current);
    } else {
      SameLengthOrder(current, incoming);
    }
  }

  // ---------------------------------------------------------------------------------------------
  // Entity tags
  // ---------------------------------------------------------------------------------------------

  /** The strong entity tag of a version: a quoted decimal (section 8.8.3 of RFC 9110). */
  function ETag(version: nat): string { "\"" + FormatUint(version) + "\"" }

  function ParseIfMatch(value: string): Result<nat, Error> {
    if |value| < 3 || value[0] != '"' || value[|value| - 1] != '"' then Err(InvalidExpectedVersion)
    else
      var version := ParseUint(value[1..|value| - 1]);
      if version.None? || version.value == 0 then Err(InvalidExpectedVersion) else Ok(version.value)
  }

  /** The tag a response carries is the precondition that the next request is checked against. */
  lemma ETagRoundTrip(version: nat)
    requires version < TWO_64
    ensures ParseIfMatch(ETag(version)) == if version == 0 then Err(InvalidExpectedVersion) else Ok(version)
  {
    FormatIsCanonical(version);
    var tag := ETag(version);
    assert tag[1..|tag| - 1] == FormatUint(version);
  }

  /** Exactly the quoted positive uint64 decimals are accepted; everything else is an invalid version. */
  lemma IfMatchIsExact(value: string, version: nat)
    ensures ParseIfMatch(value) == Ok(version) <==>
      && 0 < version < 0x1_0000_0000_0000_0000
      && exists digits :: value == "\"" + digits + "\"" && digits != "" && AllDigits(digits) && Value(digits) == version
    ensures ParseIfMatch(value).Err? ==> ParseIfMatch(value) == Err(InvalidExpectedVersion)
  {
    if |value| >= 3 && value[0] == '"' && value[|value| - 1] == '"' {
      ParseUintIsExact(value[1..|value| - 1], version);
      assert value == "\"" + value[1..|value| - 1] + "\"";
    }
    forall digits | value == "\"" + digits + "\"" ensures value[1..|value| - 1] == digits {
    }
  }

  /** Two versions share a tag only if they are equal. */
  lemma ETagInjective(v: nat, w: nat)
    requires ETag(v) == ETag(w)
    ensures v == w
  {
    FormatIsCanonical(v);
    FormatIsCanonical(w);
    assert ETag(v)[1..|ETag(v)| - 1] == FormatUint(v);
    assert ETag(w)[1..|ETag(w)| - 1] == FormatUint(w);
  }
}
