/** The pieces of Python's string handling the colouring scripts rely on:
    `str(c)` of a non-negative int, `int(s)` and `s.split(sep)`. */
module Text {
  import opened Wrappers

  predicate IsDigit(ch: char) {
    '0' <= ch <= '9'
  }

  /** A non-empty run of ASCII decimal digits. */
  predicate IsDecimal(s: string) {
    |s| > 0 && forall i :: 0 <= i < |s| ==> IsDigit(s[i])
  }

  function DigitChar(d: nat): (ch: char)
    requires d < 10
    ensures IsDigit(ch) && ch as int - '0' as int == d
  {
    ('0' as int + d) as char
  }

  /** `str(n)` for a non-negative int: its decimal digits, without sign and
      without a leading zero. */
  function Decimal(n: nat): (s: string)
    ensures IsDecimal(s)
    ensures s[0] == '0' ==> n == 0
    decreases n
  {
    if n < 10 then [DigitChar(n)] else Decimal(n / 10) + [DigitChar(n % 10)]
  }

  /** The value of a string of decimal digits, most significant first. */
  function DigitsValue(s: string): nat
    requires forall i :: 0 <= i < |s| ==> IsDigit(s[i])
  {
    if s == [] then 0
    else
      assert IsDigit(s[|s| - 1]);
      DigitsValue(s[..|s| - 1]) * 10 + (s[|s| - 1] as int - '0' as int)
  }

  /** `int(s)`: a run of decimal digits gives its value, anything else raises
      ValueError (None). */
  function ParseInt(s: string): (r: Option<int>)
    ensures r.Some? <==> IsDecimal(s)
    ensures r.Some? ==> r.value >= 0
  {
    if IsDecimal(s) then Some(DigitsValue(s)) else None
  }

  /** `int(str(n)) == n`. */
  lemma {:induction false} ParseIntDecimal(n: nat)
    ensures ParseInt(Decimal(n)) == Some(n)
    decreases n
  {
    var s := Decimal(n);
    if n < 10 {
      assert s[..|s| - 1] == [];
      assert DigitsValue(s) == n;
    } else {
      ParseIntDecimal(n / 10);
      assert s[..|s| - 1] == Decimal(n / 10);
      assert n == n / 10 * 10 + n % 10;
    }
  }

  /** Index of the first occurrence of `sep` in `s`, or |s| when there is none. */
  function FirstIndex(s: string, sep: char): (i: nat)
    ensures i <= |s|
    ensures forall j :: 0 <= j < i ==> s[j] != sep
    ensures i < |s| ==> s[i] == sep
  {
    if s == [] || s[0] == sep then 0 else 1 + FirstIndex(s[1..], sep)
  }

  /** Index of the last occurrence of `sep` in `s`, or -1 when there is none. */
  function LastIndex(s: string, sep: char): (i: int)
    ensures -1 <= i < |s|
    ensures forall j :: i < j < |s| ==> s[j] != sep
    ensures 0 <= i ==> s[i] == sep
  {
    if s == [] then -1
    else if s[|s| - 1] == sep then |s| - 1
    else LastIndex(s[..|s| - 1], sep)
  }

  /** Concatenation of `parts` with `sep` between consecutive parts; the inverse
      of Split. */
  function Join(parts: seq<string>, sep: char): string
    requires |parts| >= 1
  {
    if |parts| == 1 then parts[0] else parts[0] + [sep] + Join(parts[1..], sep)
  }

  /** `s.split(sep)` for a one-character separator: the pieces of `s` between
      consecutive occurrences of `sep`, possibly empty. */
  function Split(s: string, sep: char): (parts: seq<string>)
    ensures |parts| >= 1
    ensures forall i :: 0 <= i < |parts| ==> sep !in parts[i]
    ensures Join(parts, sep) == s
    decreases |s|
  {
    var i := FirstIndex(s, sep);
    if i == |s| then
      [s]
    else
      var rest := Split(s[i + 1..], sep);
      var parts := [s[..i]] + rest;
      assert parts[1..] == rest;
      assert s == s[..i] + [sep] + s[i + 1..];
      parts
  }

  /** A string without the separator splits into itself alone. */
  lemma SplitNoSeparator(a: string, sep: char)
    requires sep !in a
    ensures Split(a, sep) == [a]
  {
    var i := FirstIndex(a, sep);
    assert i == |a|;
  }

  /** Splitting cuts at the first separator. */
  lemma SplitFirst(a: string, sep: char, b: string)
    requires sep !in a
    ensures Split(a + [sep] + b, sep) == [a] + Split(b, sep)
  {
    var s := a + [sep] + b;
    var i := FirstIndex(s, sep);
    assert forall j :: 0 <= j < |a| ==> s[j] == a[j];
    assert s[|a|] == sep;
    assert s[..i] == a;
    assert s[i + 1..] == b;
  }

  /** The last separator of `a + [sep] + b` is the one between them when `b`
      holds none. */
  lemma {:induction false} LastIndexAt(a: string, sep: char, b: string)
    requires sep !in b
    ensures LastIndex(a + [sep] + b, sep) == |a|
    decreases |b|
  {
    var s := a + [sep] + b;
    if b != [] {
      assert b[|b| - 1] in b;
      assert s[..|s| - 1] == a + [sep] + b[..|b| - 1];
      LastIndexAt(a, sep, b[..|b| - 1]);
    }
  }
}
