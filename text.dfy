/**
 * The string operations the ETL and the dashboard borrow from Python: `str.upper()`,
 * `str.split()[0]`, `str.startswith`, `str(int)`, `int(str)` and the code-point order
 * that `sort_values` uses on text columns.
 */
module Text {
  import opened Common

  // ---------------------------------------------------------------------------
  // Upper case

  /** `str.upper()` on one character: ASCII and Latin-1 lower-case letters are mapped up. */
  function UpperChar(c: char): char {
    if 'a' <= c <= 'z' then (c as int - 32) as char
    else if '\U{E0}' <= c <= '\U{FE}' && c != '\U{F7}' then (c as int - 32) as char
    else c
  }

  /** `str.upper()`: same length, and the result is already upper-case. */
  function Upper(s: string): (r: string)
    ensures |r| == |s|
    ensures forall i :: 0 <= i < |r| ==> UpperChar(r[i]) == r[i]
  {
    seq(|s|, i requires 0 <= i < |s| => UpperChar(s[i]))
  }

  /** Upper-casing twice is upper-casing once, so both sides of a join can be normalised freely. */
  lemma UpperIdempotent(s: string)
    ensures Upper(Upper(s)) == Upper(s)
  {
  }

  // ---------------------------------------------------------------------------
  // Whitespace and the first token of `str.split()`

  /** The characters for which Python's `str.isspace()` holds. */
  predicate IsSpace(c: char) {
    || c == ' '
    || ('\t' <= c <= '\r')
    || ('\U{1C}' <= c <= '\U{1F}')
    || c == '\U{85}' || c == '\U{A0}' || c == '\U{1680}'
    || ('\U{2000}' <= c <= '\U{200A}')
    || c == '\U{2028}' || c == '\U{2029}' || c == '\U{202F}' || c == '\U{205F}' || c == '\U{3000}'
  }

  predicate NoSpace(s: string) {
    forall i :: 0 <= i < |s| ==> !IsSpace(s[i])
  }

  predicate AllSpace(s: string) {
    forall i :: 0 <= i < |s| ==> IsSpace(s[i])
  }

  /** The longest prefix of `s` without whitespace. */
  function Word(s: string): (w: string)
    ensures |w| <= |s| && w == s[..|w|]
    ensures NoSpace(w)
    ensures |w| == |s| || IsSpace(s[|w|])
  {
    if s == [] || IsSpace(s[0]) then [] else [s[0]] + Word(s[1..])
  }

  /** `s.split()[0]`, or `None` where Python raises IndexError (blank or empty `s`). */
  function FirstToken(s: string): (r: Option<string>)
    ensures r.None? <==> AllSpace(s)
    ensures r.Some? ==> r.value != [] && NoSpace(r.value)
  {
    if s == [] then None
    else if IsSpace(s[0]) then FirstToken(s[1..])
    else Some(Word(s))
  }

  lemma {:induction false} WordOf(tok: string, rest: string)
    requires NoSpace(tok)
    requires rest == [] || IsSpace(rest[0])
    ensures Word(tok + rest) == tok
  {
    if tok != [] {
      assert (tok + rest)[1..] == tok[1..] + rest;
      WordOf(tok[1..], rest);
    } else {
      assert tok + rest == rest;
    }
  }

  /** The first token is exactly the run of non-space characters after the leading blanks. */
  lemma {:induction false} FirstTokenOf(lead: string, tok: string, rest: string)
    requires AllSpace(lead)
    requires tok != [] && NoSpace(tok)
    requires rest == [] || IsSpace(rest[0])
    ensures FirstToken(lead + tok + rest) == Some(tok)
  {
    if lead == [] {
      assert lead + tok + rest == tok + rest;
      WordOf(tok, rest);
    } else {
      assert (lead + tok + rest)[1..] == lead[1..] + tok + rest;
      FirstTokenOf(lead[1..], tok, rest);
    }
  }

  // ---------------------------------------------------------------------------
  // Prefixes

  lemma AppendAssoc<T>(a: seq<T>, b: seq<T>, c: seq<T>)
    ensures a + b + c == a + (b + c)
  {
  }

  /** Joining two texts without blanks gives a text without blanks. */
  lemma NoSpaceAppend(a: string, b: string)
    requires NoSpace(a) && NoSpace(b)
    ensures NoSpace(a + b)
  {
    forall i | 0 <= i < |a + b|
      ensures !IsSpace((a + b)[i])
    {
      if i >= |a| {
        assert (a + b)[i] == b[i - |a|];
      }
    }
  }

  /** Upper-casing adds no blank. */
  lemma UpperNoSpace(s: string)
    requires NoSpace(s)
    ensures NoSpace(Upper(s))
  {
    forall i | 0 <= i < |s|
      ensures !IsSpace(Upper(s)[i])
    {
      assert Upper(s)[i] == UpperChar(s[i]);
    }
  }

  /** The decimal form of an integer has no blank. */
  lemma IntToStringNoSpace(n: int)
    ensures NoSpace(IntToString(n))
  {
    var t := NatToString(if n < 0 then -n else n);
    assert NoSpace(t) by {
      forall i | 0 <= i < |t|
        ensures !IsSpace(t[i])
      {
        assert IsDigit(t[i]);
      }
    }
    if n < 0 {
      NoSpaceAppend("-", t);
    }
  }

  /** `s.startswith(p)`. */
  predicate StartsWith(s: string, p: string) {
    |p| <= |s| && s[..|p|] == p
  }

  // ---------------------------------------------------------------------------
  // Decimal digits: `str(n)` and `int(s)`

  predicate IsDigit(c: char) {
    '0' <= c <= '9'
  }

  predicate AllDigits(s: string) {
    forall i :: 0 <= i < |s| ==> IsDigit(s[i])
  }

  function DigitChar(d: nat): (c: char)
    requires d < 10
    ensures IsDigit(c)
  {
    ('0' as int + d) as char
  }

  function DigitValue(c: char): nat
    requires IsDigit(c)
  {
    c as int - '0' as int
  }

  /** The number a string of decimal digits denotes (leading zeros allowed, as `int()` allows them). */
  function DigitsValue(s: string): nat
    requires AllDigits(s)
  {
    if s == [] then 0 else DigitsValue(s[..|s| - 1]) * 10 + DigitValue(s[|s| - 1])
  }

  /** `str(n)` for a non-negative integer. */
  function NatToString(n: nat): (s: string)
    ensures s != [] && AllDigits(s)
  {
    if n < 10 then [DigitChar(n)] else NatToString(n / 10) + [DigitChar(n % 10)]
  }

  /** `str(n)`. */
  function IntToString(n: int): (s: string)
    ensures s != []
  {
    if n < 0 then "-" + NatToString(-n) else NatToString(n)
  }

  lemma {:induction false} NatToStringValue(n: nat)
    ensures DigitsValue(NatToString(n)) == n
  {
    if n >= 10 {
      var s := NatToString(n);
      assert s[..|s| - 1] == NatToString(n / 10);
      NatToStringValue(n / 10);
    }
  }

  function TrimStart(s: string): (r: string)
    ensures r == [] || !IsSpace(r[0])
  {
    if s != [] && IsSpace(s[0]) then TrimStart(s[1..]) else s
  }

  function TrimEnd(s: string): (r: string)
    ensures r == [] || !IsSpace(r[|r| - 1])
  {
    if s != [] && IsSpace(s[|s| - 1]) then TrimEnd(s[..|s| - 1]) else s
  }

  /** `int(s)` on text: surrounding whitespace, an optional sign, then ASCII digits; `None` where Python raises ValueError. */
  function ParseInt(s: string): Option<int> {
    var t := TrimEnd(TrimStart(s));
    if t == [] then None
    else if t[0] == '-' || t[0] == '+' then
      var body := t[1..];
      if body != [] && AllDigits(body) then
        Some(if t[0] == '-' then -(DigitsValue(body) as int) else DigitsValue(body))
      else None
    else if AllDigits(t) then Some(DigitsValue(t))
    else None
  }

  lemma TrimUnchanged(s: string)
    requires s != [] && !IsSpace(s[0]) && !IsSpace(s[|s| - 1])
    ensures TrimEnd(TrimStart(s)) == s
  {
  }

  /** `int(str(n)) == n`: the decimal form of every integer reads back as that integer. */
  lemma {:induction false} ParseIntOfIntToString(n: int)
    ensures ParseInt(IntToString(n)) == Some(n)
  {
    var s := IntToString(n);
    if n < 0 {
      var digits := NatToString(-n);
      assert s == "-" + digits;
      assert IsDigit(s[|s| - 1]);
      TrimUnchanged(s);
      assert s[1..] == digits;
      NatToStringValue(-n);
    } else {
      assert IsDigit(s[0]) && IsDigit(s[|s| - 1]);
      TrimUnchanged(s);
      NatToStringValue(n);
    }
  }

  /** 10^k. */
  function Pow10(k: nat): (p: nat)
    ensures p >= 1
  {
    if k == 0 then 1 else 10 * Pow10(k - 1)
  }

  /** The last `k` decimal digits of `r`, zero-padded. */
  function Padded(r: nat, k: nat): (s: string)
    ensures |s| == k && AllDigits(s)
  {
    if k == 0 then [] else Padded(r / 10, k - 1) + [DigitChar(r % 10)]
  }

  /** A number below 10^k reads back from its `k`-digit zero-padded form. */
  lemma {:induction false} PaddedValue(r: nat, k: nat)
    requires r < Pow10(k)
    ensures DigitsValue(Padded(r, k)) == r
  {
    if k > 0 {
      var s := Padded(r, k);
      assert s[..|s| - 1] == Padded(r / 10, k - 1);
      PaddedValue(r / 10, k - 1);
    }
  }

  /**
   * Appending `k` decimal digits to a positive number appends them to its decimal form:
   * `str(m * 10^k + r) == str(m) + <r on k digits>` when `r < 10^k`.
   */
  lemma {:induction false} NatToStringExtend(m: nat, k: nat, r: nat)
    requires m >= 1 && r < Pow10(k)
    ensures NatToString(m * Pow10(k) + r) == NatToString(m) + Padded(r, k)
  {
    if k > 0 {
      var p := Pow10(k - 1);
      var q := m * p + r / 10;
      assert Pow10(k) == p * 10;
      ShiftDecimal(m, p, r);
      NatToStringExtend(m, k - 1, r / 10);
      ExtendByLastDigit(m, k, r, q);
    }
  }

  /** The inductive step of `NatToStringExtend`: the last of the `k` digits goes after the others. */
  lemma ExtendByLastDigit(m: nat, k: nat, r: nat, q: nat)
    requires k > 0 && q >= 1
    requires m * Pow10(k) + r == q * 10 + r % 10
    requires NatToString(q) == NatToString(m) + Padded(r / 10, k - 1)
    ensures NatToString(m * Pow10(k) + r) == NatToString(m) + Padded(r, k)
  {
    LastDigit(q, r % 10);
    AppendAssoc(NatToString(m), Padded(r / 10, k - 1), [DigitChar(r % 10)]);
  }

  /** Splitting off the last digit of `m * 10p + r`, with `r < 10p`. */
  lemma ShiftDecimal(m: nat, p: nat, r: nat)
    requires m >= 1 && p >= 1 && r < p * 10
    ensures m * (p * 10) + r == (m * p + r / 10) * 10 + r % 10
    ensures r / 10 < p && m * p + r / 10 >= 1
  {
    assert m * (p * 10) == (m * p) * 10;
    assert m * p >= p;
  }

  /** The decimal form of `q * 10 + d` is that of `q` followed by the digit `d`. */
  lemma LastDigit(q: nat, d: nat)
    requires q >= 1 && d < 10
    ensures NatToString(q * 10 + d) == NatToString(q) + [DigitChar(d)]
  {
    assert (q * 10 + d) / 10 == q;
    assert (q * 10 + d) % 10 == d;
  }

  // ---------------------------------------------------------------------------
  // Code-point order on strings and sorting by a text key

  /** Python's `<=` on `str`: lexicographic by code point. */
  predicate StrLe(a: string, b: string)
    decreases |a|
  {
    a == [] || (b != [] && (a[0] < b[0] || (a[0] == b[0] && StrLe(a[1..], b[1..]))))
  }

  lemma {:induction false} StrLeTotal(a: string, b: string)
    ensures StrLe(a, b) || StrLe(b, a)
    decreases |a|
  {
    if a != [] && b != [] && a[0] == b[0] {
      StrLeTotal(a[1..], b[1..]);
    }
  }

  lemma {:induction false} StrLeTrans(a: string, b: string, c: string)
    requires StrLe(a, b) && StrLe(b, c)
    ensures StrLe(a, c)
    decreases |a|
  {
    if a != [] && b != [] && c != [] && a[0] == b[0] == c[0] {
      StrLeTrans(a[1..], b[1..], c[1..]);
    }
  }

  lemma {:induction false} StrLeAntisymmetric(a: string, b: string)
    requires StrLe(a, b) && StrLe(b, a)
    ensures a == b
    decreases |a|
  {
    if a != [] && b != [] {
      StrLeAntisymmetric(a[1..], b[1..]);
      assert a == [a[0]] + a[1..];
      assert b == [b[0]] + b[1..];
    }
  }

  predicate SortedBy<T>(s: seq<T>, key: T -> string) {
    forall i, j :: 0 <= i < j < |s| ==> StrLe(key(s[i]), key(s[j]))
  }

  function InsertBy<T>(x: T, s: seq<T>, key: T -> string): seq<T> {
    if s == [] then [x]
    else if StrLe(key(x), key(s[0])) then [x] + s
    else [s[0]] + InsertBy(x, s[1..], key)
  }

  /** `sort_values` on a column of text: an insertion sort by code-point order of the key. */
  function SortBy<T>(s: seq<T>, key: T -> string): seq<T> {
    if s == [] then [] else InsertBy(s[0], SortBy(s[1..], key), key)
  }

  lemma {:induction false} InsertBySorted<T>(x: T, s: seq<T>, key: T -> string)
    requires SortedBy(s, key)
    ensures SortedBy(InsertBy(x, s, key), key)
    ensures multiset(InsertBy(x, s, key)) == multiset(s) + multiset{x}
  {
    if s == [] {
    } else if StrLe(key(x), key(s[0])) {
      forall j | 0 <= j < |s| ensures StrLe(key(x), key(s[j])) {
        if j > 0 {
          StrLeTrans(key(x), key(s[0]), key(s[j]));
        }
      }
      SortedCons(x, s, key);
    } else {
      StrLeTotal(key(x), key(s[0]));
      InsertBySorted(x, s[1..], key);
      var tail := InsertBy(x, s[1..], key);
      assert s == [s[0]] + s[1..];
      forall j | 0 <= j < |tail| ensures StrLe(key(s[0]), key(tail[j])) {
        assert tail[j] in multiset(tail);
        if tail[j] != x {
          assert tail[j] in multiset(s[1..]);
          var k :| 0 <= k < |s[1..]| && s[1..][k] == tail[j];
          assert s[k + 1] == tail[j];
        }
      }
      SortedCons(s[0], tail, key);
    }
  }

  /** A sorted sequence stays sorted under a new first element that is at most each of its keys. */
  lemma SortedCons<T>(y: T, t: seq<T>, key: T -> string)
    requires SortedBy(t, key) && forall j :: 0 <= j < |t| ==> StrLe(key(y), key(t[j]))
    ensures SortedBy([y] + t, key)
  {
    var r := [y] + t;
    forall i, j | 0 <= i < j < |r| ensures StrLe(key(r[i]), key(r[j])) {
      if i == 0 {
        assert r[j] == t[j - 1];
      } else {
        assert r[i] == t[i - 1] && r[j] == t[j - 1];
      }
    }
  }

  /** Sorting yields the same elements, ordered by the key. */
  lemma {:induction false} SortByCorrect<T>(s: seq<T>, key: T -> string)
    ensures SortedBy(SortBy(s, key), key)
    ensures multiset(SortBy(s, key)) == multiset(s)
  {
    if s != [] {
      SortByCorrect(s[1..], key);
      InsertBySorted(s[0], SortBy(s[1..], key), key);
      assert s == [s[0]] + s[1..];
    }
  }
}
