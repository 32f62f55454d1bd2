/** The string operations the views rely on: Python's `str.strip()`,
    `int(str)` and `str(int)` (through f-strings), the database's `Lower(...)`
    and the code-point order in which names are compared and sorted. */
module Text {
  import opened Collections
  import opened Ordering

  /** Python's `str.isspace()`: the characters `str.strip()` removes. */
  predicate IsSpace(c: char) {
    var n := c as int;
    || 0x09 <= n <= 0x0D || 0x1C <= n <= 0x20 || n == 0x85 || n == 0xA0
    || n == 0x1680 || 0x2000 <= n <= 0x200A || n == 0x2028 || n == 0x2029
    || n == 0x202F || n == 0x205F || n == 0x3000
  }

  function StripStart(s: string): (r: string)
    ensures |r| <= |s| && r == s[|s| - |r|..]
    ensures forall i :: 0 <= i < |s| - |r| ==> IsSpace(s[i])
    ensures r == [] || !IsSpace(r[0])
  {
    if s != [] && IsSpace(s[0]) then StripStart(s[1..]) else s
  }

  function StripEnd(s: string): (r: string)
    ensures |r| <= |s| && r == s[..|r|]
    ensures forall i :: |r| <= i < |s| ==> IsSpace(s[i])
    ensures r == [] || !IsSpace(r[|r| - 1])
  {
    if s != [] && IsSpace(s[|s| - 1]) then StripEnd(s[..|s| - 1]) else s
  }

  /** Python's `str.strip()` with no argument. */
  function Strip(s: string): (r: string)
    ensures |r| <= |s|
    ensures r == [] || (!IsSpace(r[0]) && !IsSpace(r[|r| - 1]))
  {
    var t := StripStart(s);
    var r := StripEnd(t);
    assert r != [] ==> r[0] == t[0];
    r
  }

  /** Strip removes whitespace from both ends and nothing else. */
  lemma StripIsTrimmedSlice(s: string)
    ensures var r := Strip(s);
      exists i, j :: 0 <= i <= j <= |s| && r == s[i..j]
        && (forall k :: 0 <= k < i ==> IsSpace(s[k]))
        && (forall k :: j <= k < |s| ==> IsSpace(s[k]))
        && (r == [] || (!IsSpace(r[0]) && !IsSpace(r[|r| - 1])))
  {
    var t := StripStart(s);
    var r := StripEnd(t);
    assert r == Strip(s);
    var i := |s| - |t|;
    var j := i + |r|;
    assert r == s[i..j] by {
      assert t == s[i..];
      assert r == t[..|r|];
    }
    assert forall k :: 0 <= k < i ==> IsSpace(s[k]);
    forall k | j <= k < |s| ensures IsSpace(s[k]) {
      assert s[k] == t[k - i];
    }
  }

  /** ASCII case folding, as the database's `Lower(...)` does under SQLite. */
  function LowerChar(c: char): char {
    if 'A' <= c <= 'Z' then (c as int - 'A' as int + 'a' as int) as char else c
  }

  function Lower(s: string): (r: string)
    ensures |r| == |s|
    ensures forall i :: 0 <= i < |s| ==> !('A' <= r[i] <= 'Z')
    ensures forall i :: 0 <= i < |s| && !('A' <= s[i] <= 'Z') ==> r[i] == s[i]
    ensures forall i :: 0 <= i < |s| && 'A' <= s[i] <= 'Z' ==> r[i] as int == s[i] as int + 32
  {
    seq(|s|, i requires 0 <= i < |s| => LowerChar(s[i]))
  }

  /** Code-point order on strings, as Python and SQLite's binary collation compare them. */
  function StrLe(a: string, b: string): bool {
    if a == [] then true
    else if b == [] then false
    else if a[0] != b[0] then a[0] < b[0]
    else StrLe(a[1..], b[1..])
  }

  lemma {:induction false} StrLeRefl(a: string)
    ensures StrLe(a, a)
  {
    if a != [] { StrLeRefl(a[1..]); }
  }

  lemma {:induction false} StrLeConnected(a: string, b: string)
    ensures StrLe(a, b) || StrLe(b, a)
  {
    if a != [] && b != [] && a[0] == b[0] { StrLeConnected(a[1..], b[1..]); }
  }

  lemma {:induction false} StrLeTrans(a: string, b: string, c: string)
    requires StrLe(a, b) && StrLe(b, c)
    ensures StrLe(a, c)
  {
    if a != [] && b != [] && c != [] && a[0] == b[0] && b[0] == c[0] {
      StrLeTrans(a[1..], b[1..], c[1..]);
    }
  }

  lemma {:induction false} StrLeAntisym(a: string, b: string)
    requires StrLe(a, b) && StrLe(b, a)
    ensures a == b
  {
    if a != [] && b != [] {
      StrLeAntisym(a[1..], b[1..]);
      assert a == [a[0]] + a[1..] && b == [b[0]] + b[1..];
    }
  }

  /** Strings are totally ordered by code point. */
  lemma StrLeTotal()
    ensures TotalOrder(StrLe)
  {
    forall a { StrLeRefl(a); }
    forall a, b { StrLeConnected(a, b); }
    forall a, b, c | StrLe(a, b) && StrLe(b, c) { StrLeTrans(a, b, c); }
  }

  /** Code point `n` is one of the ten digits that start at `zero`. */
  predicate InRun(n: int, zero: int) { zero <= n < zero + 10 }

  /** The digit zero of the run of ten decimal digits holding code point `n`
      (Unicode 15.0, category Nd), or -1 when `n` is no decimal digit:
      `int()` reads digits of any script, such as the full-width U+FF10..U+FF19
      or the Arabic-Indic U+0660..U+0669. */
  function DigitZero(n: int): (z: int)
    ensures z == -1 || InRun(n, z)
  {
    if InRun(n, 0x30) then 0x30
    else if InRun(n, 0x660) then 0x660
    else if InRun(n, 0x6F0) then 0x6F0
    else if InRun(n, 0x7C0) then 0x7C0
    else if InRun(n, 0x966) then 0x966
    else if InRun(n, 0x9E6) then 0x9E6
    else if InRun(n, 0xA66) then 0xA66
    else if InRun(n, 0xAE6) then 0xAE6
    else if InRun(n, 0xB66) then 0xB66
    else if InRun(n, 0xBE6) then 0xBE6
    else if InRun(n, 0xC66) then 0xC66
    else if InRun(n, 0xCE6) then 0xCE6
    else if InRun(n, 0xD66) then 0xD66
    else if InRun(n, 0xDE6) then 0xDE6
    else if InRun(n, 0xE50) then 0xE50
    else if InRun(n, 0xED0) then 0xED0
    else if InRun(n, 0xF20) then 0xF20
    else if InRun(n, 0x1040) then 0x1040
    else if InRun(n, 0x1090) then 0x1090
    else if InRun(n, 0x17E0) then 0x17E0
    else if InRun(n, 0x1810) then 0x1810
    else if InRun(n, 0x1946) then 0x1946
    else if InRun(n, 0x19D0) then 0x19D0
    else if InRun(n, 0x1A80) then 0x1A80
    else if InRun(n, 0x1A90) then 0x1A90
    else if InRun(n, 0x1B50) then 0x1B50
    else if InRun(n, 0x1BB0) then 0x1BB0
    else if InRun(n, 0x1C40) then 0x1C40
    else if InRun(n, 0x1C50) then 0x1C50
    else if InRun(n, 0xA620) then 0xA620
    else if InRun(n, 0xA8D0) then 0xA8D0
    else if InRun(n, 0xA900) then 0xA900
    else if InRun(n, 0xA9D0) then 0xA9D0
    else if InRun(n, 0xA9F0) then 0xA9F0
    else if InRun(n, 0xAA50) then 0xAA50
    else if InRun(n, 0xABF0) then 0xABF0
    else if InRun(n, 0xFF10) then 0xFF10
    else if InRun(n, 0x104A0) then 0x104A0
    else if InRun(n, 0x10D30) then 0x10D30
    else if InRun(n, 0x11066) then 0x11066
    else if InRun(n, 0x110F0) then 0x110F0
    else if InRun(n, 0x11136) then 0x11136
    else if InRun(n, 0x111D0) then 0x111D0
    else if InRun(n, 0x112F0) then 0x112F0
    else if InRun(n, 0x11450) then 0x11450
    else if InRun(n, 0x114D0) then 0x114D0
    else if InRun(n, 0x11650) then 0x11650
    else if InRun(n, 0x116C0) then 0x116C0
    else if InRun(n, 0x11730) then 0x11730
    else if InRun(n, 0x118E0) then 0x118E0
    else if InRun(n, 0x11950) then 0x11950
    else if InRun(n, 0x11C50) then 0x11C50
    else if InRun(n, 0x11D50) then 0x11D50
    else if InRun(n, 0x11DA0) then 0x11DA0
    else if InRun(n, 0x11F50) then 0x11F50
    else if InRun(n, 0x16A60) then 0x16A60
    else if InRun(n, 0x16AC0) then 0x16AC0
    else if InRun(n, 0x16B50) then 0x16B50
    else if InRun(n, 0x1D7CE) then 0x1D7CE
    else if InRun(n, 0x1D7D8) then 0x1D7D8
    else if InRun(n, 0x1D7E2) then 0x1D7E2
    else if InRun(n, 0x1D7EC) then 0x1D7EC
    else if InRun(n, 0x1D7F6) then 0x1D7F6
    else if InRun(n, 0x1E140) then 0x1E140
    else if InRun(n, 0x1E2F0) then 0x1E2F0
    else if InRun(n, 0x1E4F0) then 0x1E4F0
    else if InRun(n, 0x1E950) then 0x1E950
    else if InRun(n, 0x1FBF0) then 0x1FBF0
    else -1
  }

  /** A Unicode decimal digit, which Python's `int()` accepts. */
  predicate IsDigit(c: char) { DigitZero(c as int) != -1 }

  function DigitValue(c: char): (d: nat)
    requires IsDigit(c)
    ensures d < 10
  {
    c as int - DigitZero(c as int)
  }

  function DigitChar(d: nat): (c: char)
    requires d < 10
    ensures '0' <= c <= '9' && IsDigit(c) && DigitValue(c) == d
  {
    ('0' as int + d) as char
  }

  /** The decimal digits of `n`, most significant first, without leading zeros. */
  function NatDigits(n: nat): (r: string)
    ensures r != [] && forall i :: 0 <= i < |r| ==> IsDigit(r[i]) && '0' <= r[i] <= '9'
  {
    if n < 10 then [DigitChar(n)] else NatDigits(n / 10) + [DigitChar(n % 10)]
  }

  /** Python's `str(n)` for an int, as f-strings render it. */
  function Decimal(n: int): (r: string)
    ensures r != [] && forall i :: 0 <= i < |r| ==> '0' <= r[i] <= '9' || (i == 0 && r[i] == '-')
  {
    if n < 0 then "-" + NatDigits(-n) else NatDigits(n)
  }

  /** Digits with single underscores between them, as Python's `int()` accepts. */
  predicate DigitGroups(s: string) {
    && s != []
    && IsDigit(s[0]) && IsDigit(s[|s| - 1])
    && (forall i :: 0 <= i < |s| ==> IsDigit(s[i]) || s[i] == '_')
    && (forall i :: 0 <= i < |s| - 1 ==> !(s[i] == '_' && s[i + 1] == '_'))
  }

  /** The value of the digits of `s`, skipping underscores. */
  function DigitsValue(s: string): nat
    requires forall i :: 0 <= i < |s| ==> IsDigit(s[i]) || s[i] == '_'
  {
    if s == [] then 0
    else if s[|s| - 1] == '_' then DigitsValue(s[..|s| - 1])
    else DigitsValue(s[..|s| - 1]) * 10 + DigitValue(s[|s| - 1])
  }

  /** Python's `int(s)` on an already stripped string: an optional sign, then
      decimal digits with single underscores between them; anything else is a
      `ValueError`, here `None`. */
  function ParseInt(s: string): (r: Option<int>)
    ensures r.Some? ==> s != [] && IsDigit(s[|s| - 1])
    ensures r.Some? && r.value < 0 ==> s[0] == '-'
  {
    if s != [] && (s[0] == '+' || s[0] == '-') then
      var body := s[1..];
      var v: int := if DigitGroups(body) then DigitsValue(body) else 0;
      if DigitGroups(body) then Some(if s[0] == '-' then -v else v)
      else None
    else if DigitGroups(s) then Some(DigitsValue(s))
    else None
  }

  lemma {:induction false} NatDigitsValue(n: nat)
    ensures DigitsValue(NatDigits(n)) == n
  {
    var r := NatDigits(n);
    if n >= 10 {
      NatDigitsValue(n / 10);
      assert r[..|r| - 1] == NatDigits(n / 10);
    }
  }

  /** `int(str(n)) == n`: parsing undoes decimal formatting. */
  lemma ParseDecimal(n: int)
    ensures ParseInt(Decimal(n)) == Some(n)
  {
    var m := if n < 0 then -n else n;
    NatDigitsValue(m);
    var d := NatDigits(m);
    assert DigitGroups(d);
    if n < 0 {
      assert Decimal(n)[1..] == d;
    }
  }

  /** Digits of other scripts read as their values: full-width and Arabic-Indic. */
  lemma ParseOtherScripts()
    ensures ParseInt("\U{FF13}") == Some(3)
    ensures ParseInt("\U{FF11}\U{FF12}") == Some(12)
    ensures ParseInt("-\U{0661}\U{0662}") == Some(-12)
  {
  }

  /** Decimal formatting never maps two integers to one string. */
  lemma DecimalInjective(a: int, b: int)
    requires Decimal(a) == Decimal(b)
    ensures a == b
  {
    ParseDecimal(a);
    ParseDecimal(b);
  }
}
