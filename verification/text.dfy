/** Characters and strings: ASCII case folding (SQL LOWER and ILIKE),
    substring search, decimal digits and code-point string order. */
module Text {
  import opened Wrappers
  import Seqs

  // ---------------------------------------------------------------- case

  predicate IsUpper(c: char) {
    'A' <= c <= 'Z'
  }

  function LowerChar(c: char): (r: char)
    ensures !IsUpper(r)
    ensures !IsUpper(c) ==> r == c
  {
    if IsUpper(c) then (c as int - 'A' as int + 'a' as int) as char else c
  }

  /** Lower-cases the ASCII letters of `s` and leaves every other character alone. */
  function Lower(s: string): (r: string)
    ensures |r| == |s|
    ensures forall i :: 0 <= i < |s| ==> r[i] == LowerChar(s[i])
  {
    seq(|s|, i requires 0 <= i < |s| => LowerChar(s[i]))
  }

  lemma LowerIdempotent(s: string)
    ensures Lower(Lower(s)) == Lower(s)
  {
  }

  // ----------------------------------------------------------- substrings

  /** `needle` occurs in `hay` starting at index `i`. */
  predicate OccursAt(hay: string, needle: string, i: int) {
    0 <= i && i + |needle| <= |hay| && hay[i..i + |needle|] == needle
  }

  /** `needle` is a substring of `hay`: the meaning of `hay LIKE '%needle%'`. */
  ghost predicate Contains(hay: string, needle: string) {
    exists i :: OccursAt(hay, needle, i)
  }

  /** Left-to-right scan for the first occurrence of `needle` in `hay`. */
  function IndexOf(hay: string, needle: string): (r: Option<nat>)
    ensures r.Some? ==> OccursAt(hay, needle, r.value)
    ensures r.Some? ==> forall j :: 0 <= j < r.value ==> !OccursAt(hay, needle, j)
    ensures r.None? ==> forall j :: !OccursAt(hay, needle, j)
    decreases |hay|
  {
    if |hay| < |needle| then None
    else if hay[..|needle|] == needle then Some(0)
    else
      var rest := hay[1..];
      OccursInTail(hay, needle);
      match IndexOf(rest, needle)
      case None => None
      case Some(i) => Some(i + 1)
  }

  /** An occurrence past the first position is an occurrence in the tail. */
  lemma OccursInTail(hay: string, needle: string)
    requires |hay| > 0
    ensures !OccursAt(hay, needle, -1)
    ensures forall j :: j >= 1 ==> (OccursAt(hay, needle, j) <==> OccursAt(hay[1..], needle, j - 1))
  {
    forall j | j >= 1
      ensures OccursAt(hay, needle, j) <==> OccursAt(hay[1..], needle, j - 1)
    {
      if j + |needle| <= |hay| {
        SliceOfTail(hay, j - 1, j - 1 + |needle|);
      }
    }
  }

  lemma SliceOfTail(hay: string, a: int, b: int)
    requires 0 <= a <= b && b + 1 <= |hay|
    ensures hay[1..][a..b] == hay[a + 1..b + 1]
  {
    var left := hay[1..][a..b];
    var right := hay[a + 1..b + 1];
    assert |left| == |right|;
    forall k | 0 <= k < |left|
      ensures left[k] == right[k]
    {
      assert left[k] == hay[a + 1 + k];
    }
  }

  /** The scan finds a match exactly when the needle is a substring. */
  lemma IndexOfFindsSubstring(hay: string, needle: string)
    ensures IndexOf(hay, needle).Some? <==> Contains(hay, needle)
  {
    var r := IndexOf(hay, needle);
    if r.Some? {
      assert OccursAt(hay, needle, r.value);
    }
  }

  /** The empty string is a substring of every string. */
  lemma ContainsEmpty(hay: string)
    ensures Contains(hay, "")
  {
    assert OccursAt(hay, "", 0);
  }

  // --------------------------------------------------------------- digits

  predicate IsDigit(c: char) {
    '0' <= c <= '9'
  }

  predicate AllDigits(s: string) {
    forall i :: 0 <= i < |s| ==> IsDigit(s[i])
  }

  function DigitValue(c: char): (d: nat)
    requires IsDigit(c)
    ensures d < 10
  {
    c as int - '0' as int
  }

  function DigitChar(d: nat): (c: char)
    requires d < 10
    ensures IsDigit(c) && DigitValue(c) == d
  {
    ('0' as int + d) as char
  }

  function Pow10(n: nat): (p: nat)
    ensures p >= 1
  {
    if n == 0 then 1 else 10 * Pow10(n - 1)
  }

  /** The value of a string of decimal digits, most significant first. */
  function DigitsValue(s: string): nat
    requires AllDigits(s)
  {
    if |s| == 0 then 0 else DigitsValue(s[..|s| - 1]) * 10 + DigitValue(s[|s| - 1])
  }

  lemma {:induction false} DigitsValueBound(s: string)
    requires AllDigits(s)
    ensures DigitsValue(s) < Pow10(|s|)
  {
    if |s| > 0 {
      DigitsValueBound(s[..|s| - 1]);
    }
  }

  /** `n` written with exactly `width` digits, zero-padded on the left. */
  function FixedDigits(n: nat, width: nat): (r: string)
    requires n < Pow10(width)
    ensures |r| == width && AllDigits(r)
  {
    if width == 0 then "" else FixedDigits(n / 10, width - 1) + [DigitChar(n % 10)]
  }

  /** Reading back a zero-padded numeral gives the number. */
  lemma {:induction false} FixedDigitsValue(n: nat, width: nat)
    requires n < Pow10(width)
    ensures DigitsValue(FixedDigits(n, width)) == n
  {
    if width > 0 {
      var r := FixedDigits(n, width);
      FixedDigitsValue(n / 10, width - 1);
      assert r[..|r| - 1] == FixedDigits(n / 10, width - 1);
    }
  }

  /** Every digit string is the zero-padded numeral of its own value. */
  lemma {:induction false} DigitsValueFixed(s: string)
    requires AllDigits(s)
    ensures DigitsValue(s) < Pow10(|s|)
    ensures FixedDigits(DigitsValue(s), |s|) == s
  {
    DigitsValueBound(s);
    if |s| > 0 {
      var init := s[..|s| - 1];
      DigitsValueFixed(init);
      var v := DigitsValue(s);
      assert v / 10 == DigitsValue(init);
      assert v % 10 == DigitValue(s[|s| - 1]);
      assert DigitChar(v % 10) == s[|s| - 1];
      assert s == init + [s[|s| - 1]];
    }
  }

  /** `n` in decimal without leading zeros (JavaScript `String(n)` for a
      non-negative integer). */
  function NatToString(n: nat): (r: string)
    ensures |r| > 0 && AllDigits(r)
    ensures r[0] == '0' ==> n == 0
  {
    if n < 10 then [DigitChar(n)] else NatToString(n / 10) + [DigitChar(n % 10)]
  }

  lemma {:induction false} NatToStringValue(n: nat)
    ensures DigitsValue(NatToString(n)) == n
  {
    if n >= 10 {
      var r := NatToString(n);
      NatToStringValue(n / 10);
      assert r[..|r| - 1] == NatToString(n / 10);
    }
  }

  /** JavaScript `String(i)` for an integer `i`. */
  function IntToString(i: int): string {
    if i < 0 then "-" + NatToString(-i) else NatToString(i)
  }

  /** Length of the run of decimal digits at the start of `s`. */
  function LeadingDigits(s: string): (n: nat)
    ensures n <= |s| && AllDigits(s[..n])
    ensures n < |s| ==> !IsDigit(s[n])
  {
    if |s| == 0 || !IsDigit(s[0]) then 0
    else
      var n := 1 + LeadingDigits(s[1..]);
      assert s[..n] == [s[0]] + s[1..][..n - 1];
      n
  }

  /** JavaScript's parseInt(s) in base 10: an optional sign, then the
      longest run of digits; None stands for NaN (no digits at all). */
  function ParseInt(s: string): (r: Option<int>)
    ensures r.None? <==> LeadingDigits(if |s| > 0 && (s[0] == '-' || s[0] == '+') then s[1..] else s) == 0
  {
    var signed := |s| > 0 && (s[0] == '-' || s[0] == '+');
    var body := if signed then s[1..] else s;
    var n := LeadingDigits(body);
    var magnitude: int := if n == 0 then 0 else DigitsValue(body[..n]);
    if n == 0 then None
    else if signed && s[0] == '-' then Some(-magnitude)
    else Some(magnitude)
  }

  /** parseInt reads back what String() writes for an integer. */
  lemma ParseIntToString(i: int)
    ensures ParseInt(IntToString(i)) == Some(i)
  {
    var digits := NatToString(if i < 0 then -i else i);
    NatToStringValue(if i < 0 then -i else i);
    assert LeadingDigits(digits) == |digits| by {
      AllDigitsRun(digits);
    }
    assert digits[..|digits|] == digits;
    if i < 0 {
      assert IntToString(i)[1..] == digits;
    }
  }

  lemma {:induction false} AllDigitsRun(s: string)
    requires AllDigits(s)
    ensures LeadingDigits(s) == |s|
  {
    if |s| > 0 {
      AllDigitsRun(s[1..]);
    }
  }

  // ---------------------------------------------------------------- order

  /** Code-point lexicographic order: `a` sorts no later than `b`. */
  predicate LexLe(a: string, b: string)
    decreases |a|
  {
    |a| == 0 || (|b| > 0 && (a[0] < b[0] || (a[0] == b[0] && LexLe(a[1..], b[1..]))))
  }

  lemma {:induction false} LexLeTotal(a: string, b: string)
    ensures LexLe(a, b) || LexLe(b, a)
    decreases |a|
  {
    if |a| > 0 && |b| > 0 && a[0] == b[0] {
      LexLeTotal(a[1..], b[1..]);
    }
  }

  lemma {:induction false} LexLeTransitive(a: string, b: string, c: string)
    requires LexLe(a, b) && LexLe(b, c)
    ensures LexLe(a, c)
    decreases |a|
  {
    if |a| > 0 && a[0] == b[0] && b[0] == c[0] {
      LexLeTransitive(a[1..], b[1..], c[1..]);
    }
  }

  lemma {:induction false} LexLeAntisymmetric(a: string, b: string)
    requires LexLe(a, b) && LexLe(b, a)
    ensures a == b
    decreases |a|
  {
    if |a| > 0 {
      LexLeAntisymmetric(a[1..], b[1..]);
      assert a == [a[0]] + a[1..];
      assert b == [b[0]] + b[1..];
    }
  }

  lemma LexLeTotalPreorder()
    ensures Seqs.TotalPreorder(LexLe)
  {
    forall a, b
      ensures LexLe(a, b) || LexLe(b, a)
    {
      LexLeTotal(a, b);
    }
    forall a, b, c | LexLe(a, b) && LexLe(b, c)
      ensures LexLe(a, c)
    {
      LexLeTransitive(a, b, c);
    }
  }
}
