/**
 * The C string routines the HTTP parser relies on, on `seq<char>`: the text of a
 * NUL-terminated string inside a buffer, `strpbrk`/`strspn` over the blanks
 * `" \t"`, `strchr`, ASCII-case-insensitive comparison (`strcasecmp`,
 * `strncasecmp`), `atol` (as glibc's `strtol` in base 10) and `%d` formatting.
 */
module CString {
  import opened Wrappers

  /** Bounds of a 64-bit `long`. */
  const LONG_MAX: int := 0x7FFF_FFFF_FFFF_FFFF
  const LONG_MIN: int := -0x8000_0000_0000_0000

  /** The text of the C string that starts at `i` in `buf`: up to the first NUL or the end of `buf`. */
  function CStr(buf: seq<char>, i: int): (r: string)
    decreases |buf| - i
    ensures 0 <= i <= |buf| ==> i + |r| <= |buf| && r == buf[i..i + |r|]
    ensures forall k :: 0 <= k < |r| ==> r[k] != '\0'
    ensures 0 <= i && i + |r| < |buf| ==> buf[i + |r|] == '\0'
  {
    if i < 0 || i >= |buf| || buf[i] == '\0' then []
    else [buf[i]] + CStr(buf, i + 1)
  }

  /** A C string ends at the first NUL: one at `j` bounds the string at `i` to `j - i` characters. */
  lemma CStrStops(buf: seq<char>, i: int, j: int)
    requires 0 <= i <= j < |buf| && buf[j] == '\0'
    ensures |CStr(buf, i)| <= j - i
  {
  }

  predicate IsBlank(c: char) { c == ' ' || c == '\t' }

  /** `isspace` in the C locale. */
  predicate IsSpace(c: char)
  {
    c == ' ' || c == '\t' || c == '\n' || c == '\r' || c == '\U{B}' || c == '\U{C}'
  }

  predicate IsDigit(c: char) { '0' <= c <= '9' }

  /** `strpbrk(s + i, " \t")` as an index: the first blank at or after `i`. */
  function FindBlank(s: string, i: nat): (r: Option<nat>)
    decreases |s| - i
    ensures r.Some? ==> i <= r.value < |s| && IsBlank(s[r.value])
    ensures forall k :: i <= k < |s| && (r.None? || k < r.value) ==> !IsBlank(s[k])
  {
    if i >= |s| then None
    else if IsBlank(s[i]) then Some(i)
    else FindBlank(s, i + 1)
  }

  /** `s + i + strspn(s + i, " \t")` as an index: the first non-blank at or after `i`. */
  function SkipBlanks(s: string, i: nat): (r: nat)
    requires i <= |s|
    decreases |s| - i
    ensures i <= r <= |s|
    ensures forall k :: i <= k < r ==> IsBlank(s[k])
    ensures r < |s| ==> !IsBlank(s[r])
  {
    if i == |s| || !IsBlank(s[i]) then i else SkipBlanks(s, i + 1)
  }

  /** `strchr(s, c)`: the suffix of `s` from the first `c`, or null. */
  function FromChar(s: string, c: char): (r: Option<string>)
    ensures r.Some? <==> c in s
    ensures r.Some? ==> exists j :: 0 <= j < |s| && s[j] == c && r.value == s[j..] && c !in s[..j]
  {
    match FindChar(s, c, 0)
    case None => None
    case Some(j) =>
      assert c !in s[..j] by {
        forall k | 0 <= k < j ensures s[..j][k] != c { }
      }
      Some(s[j..])
  }

  /** The index of the first `c` at or after `i`. */
  function FindChar(s: string, c: char, i: nat): (r: Option<nat>)
    decreases |s| - i
    ensures r.Some? ==> i <= r.value < |s| && s[r.value] == c
    ensures forall k :: i <= k < |s| && (r.None? || k < r.value) ==> s[k] != c
  {
    if i >= |s| then None
    else if s[i] == c then Some(i)
    else FindChar(s, c, i + 1)
  }

  /** `tolower` on ASCII letters. */
  function Lower(c: char): char
  {
    if 'A' <= c <= 'Z' then (c as int + 32) as char else c
  }

  /** `strcasecmp(a, b) == 0` for strings without NUL. */
  predicate EqualCI(a: string, b: string)
  {
    |a| == |b| && forall k :: 0 <= k < |a| ==> Lower(a[k]) == Lower(b[k])
  }

  /** `strncasecmp(s, p, strlen(p)) == 0`: `s` begins with `p`, ignoring case. */
  predicate StartsWithCI(s: string, p: string)
  {
    |p| <= |s| && EqualCI(s[..|p|], p)
  }

  /** The numeric value of a run of decimal digits. */
  function DigitsValue(d: string): (v: nat)
    requires forall k :: 0 <= k < |d| ==> IsDigit(d[k])
  {
    if d == [] then 0
    else
      assert IsDigit(d[|d| - 1]);
      DigitsValue(d[..|d| - 1]) * 10 + (d[|d| - 1] as int - '0' as int)
  }

  /** The index where the run of digits starting at `i` ends. */
  function DigitsEnd(s: string, i: nat): (r: nat)
    requires i <= |s|
    decreases |s| - i
    ensures i <= r <= |s|
    ensures forall k :: i <= k < r ==> IsDigit(s[k])
    ensures r < |s| ==> !IsDigit(s[r])
  {
    if i == |s| || !IsDigit(s[i]) then i else DigitsEnd(s, i + 1)
  }

  /** The index of the first non-space character at or after `i`. */
  function SkipSpaces(s: string, i: nat): (r: nat)
    requires i <= |s|
    decreases |s| - i
    ensures i <= r <= |s|
    ensures forall k :: i <= k < r ==> IsSpace(s[k])
    ensures r < |s| ==> !IsSpace(s[r])
  {
    if i == |s| || !IsSpace(s[i]) then i else SkipSpaces(s, i + 1)
  }

  function Clamp(v: int, lo: int, hi: int): int
    requires lo <= hi
  {
    if v < lo then lo else if v > hi then hi else v
  }

  /**
   * `atol(s)`: leading white space, an optional sign and the longest run of
   * digits; glibc saturates a value outside the range of `long`. No digits gives 0.
   */
  function Atol(s: string): (r: int)
    ensures LONG_MIN <= r <= LONG_MAX
  {
    var j := SkipSpaces(s, 0);
    var neg := j < |s| && s[j] == '-';
    var k := if j < |s| && (s[j] == '-' || s[j] == '+') then j + 1 else j;
    var e := DigitsEnd(s, k);
    assert forall m :: 0 <= m < e - k ==> s[k..e][m] == s[k + m];
    var v: int := DigitsValue(s[k..e]);
    Clamp(if neg then -v else v, LONG_MIN, LONG_MAX)
  }

  function DigitChar(d: nat): (c: char)
    requires d < 10
    ensures IsDigit(c) && c as int - '0' as int == d
  {
    ('0' as int + d) as char
  }

  /** The decimal digits of `n`, without leading zeros. */
  function Decimal(n: nat): (r: string)
    ensures r != [] && forall k :: 0 <= k < |r| ==> IsDigit(r[k])
  {
    if n < 10 then [DigitChar(n)] else Decimal(n / 10) + [DigitChar(n % 10)]
  }

  /** `printf("%d", x)`. */
  function FormatInt(x: int): (r: string)
    ensures r != []
  {
    if x < 0 then "-" + Decimal(-x) else Decimal(x)
  }

  /** Reading back the digits of `n` gives `n`. */
  lemma {:induction false} DecimalValue(n: nat)
    ensures DigitsValue(Decimal(n)) == n
  {
    if n >= 10 {
      DecimalValue(n / 10);
      var d := Decimal(n / 10) + [DigitChar(n % 10)];
      assert d[..|d| - 1] == Decimal(n / 10);
    }
  }

  lemma {:induction false} DigitsEndAll(s: string, i: nat)
    requires i <= |s|
    requires forall k :: i <= k < |s| ==> IsDigit(s[k])
    ensures DigitsEnd(s, i) == |s|
    decreases |s| - i
  {
    if i < |s| {
      DigitsEndAll(s, i + 1);
    }
  }

  /** `atol` of an unsigned run of digits is its value, saturated. */
  lemma AtolDigits(s: string)
    requires s != [] && forall k :: 0 <= k < |s| ==> IsDigit(s[k])
    ensures Atol(s) == Clamp(DigitsValue(s), LONG_MIN, LONG_MAX)
  {
    assert SkipSpaces(s, 0) == 0;
    DigitsEndAll(s, 0);
    assert s[0..|s|] == s;
  }

  /** `atol` of a minus sign and a run of digits is minus its value, saturated. */
  lemma AtolNegDigits(s: string)
    requires |s| > 1 && s[0] == '-' && forall k :: 1 <= k < |s| ==> IsDigit(s[k])
    ensures Atol(s) == Clamp(-(DigitsValue(s[1..]) as int), LONG_MIN, LONG_MAX)
  {
    assert SkipSpaces(s, 0) == 0;
    DigitsEndAll(s, 1);
    assert s[1..|s|] == s[1..];
  }

  /** `atol` reads back what `%d` prints, for every value of a `long`. */
  lemma AtolFormatInt(x: int)
    requires LONG_MIN <= x <= LONG_MAX
    ensures Atol(FormatInt(x)) == x
  {
    var s := FormatInt(x);
    if x < 0 {
      var d := Decimal(-x);
      assert s[1..] == d;
      AtolNegDigits(s);
      DecimalValue(-x);
    } else {
      AtolDigits(s);
      DecimalValue(x);
    }
  }
}
