// The two Qt string operations both text protocols are built from:
// `section(sep, n, n)` and the conversion of a number prefix.

module QtText {

  function IndexOf(s: string, c: char): (i: nat)
    ensures i <= |s|
    ensures c !in s[..i]
    ensures i < |s| ==> s[i] == c
  {
    if s == "" || s[0] == c then 0
    else
      var i := IndexOf(s[1..], c) + 1;
      assert s[..i] == [s[0]] + s[1..][..i - 1];
      i
  }

  // The n-th field of s between separators, "" when there is no such field.
  function Section(s: string, sep: char, n: nat): string
    decreases n
  {
    var i := IndexOf(s, sep);
    if n == 0 then s[..i]
    else if i < |s| then Section(s[i + 1..], sep, n - 1)
    else ""
  }

  lemma {:induction false} IndexAfter(a: string, sep: char, rest: string)
    requires sep !in a
    ensures IndexOf(a + [sep] + rest, sep) == |a|
    ensures IndexOf(a, sep) == |a|
  {
    if a != "" {
      assert (a + [sep] + rest)[1..] == a[1..] + [sep] + rest;
      IndexAfter(a[1..], sep, rest);
    }
  }

  // A separator-free field is read back, and the next fields are those of the rest.
  lemma SectionStep(a: string, sep: char, rest: string, n: nat)
    requires sep !in a
    ensures Section(a + [sep] + rest, sep, 0) == a
    ensures Section(a + [sep] + rest, sep, n + 1) == Section(rest, sep, n)
    ensures Section(a, sep, 0) == a && Section(a, sep, n + 1) == ""
  {
    IndexAfter(a, sep, rest);
    var s := a + [sep] + rest;
    assert s[..|a|] == a && s[|a| + 1..] == rest && a[..|a|] == a;
  }

  // No field contains the separator, and its characters all come from s.
  lemma {:induction false} SectionClean(s: string, sep: char, n: nat)
    ensures sep !in Section(s, sep, n)
    ensures forall c :: c in Section(s, sep, n) ==> c in s
    decreases n
  {
    if n > 0 && IndexOf(s, sep) < |s| {
      SectionClean(s[IndexOf(s, sep) + 1..], sep, n - 1);
    }
  }

  // Field 0 of a + sep + rest when a itself holds a separator: a proper prefix of a.
  lemma {:induction false} IndexInside(a: string, sep: char, rest: string)
    requires sep in a
    ensures IndexOf(a + rest, sep) == IndexOf(a, sep) < |a|
  {
    if a[0] != sep {
      assert (a + rest)[1..] == a[1..] + rest;
      IndexInside(a[1..], sep, rest);
    }
  }

  // ---------- QString::toInt followed by the narrowing to qint8 ----------

  predicate IsDigit(c: char) { '0' <= c <= '9' }

  predicate IsSpace(c: char) { c in [' ', '\t', '\n', '\r'] || c as int in [11, 12] }

  predicate AllDigits(s: string) { forall i :: 0 <= i < |s| ==> IsDigit(s[i]) }

  function DigitsValue(s: string): nat
    requires AllDigits(s)
  {
    if s == "" then 0
    else DigitsValue(s[..|s| - 1]) * 10 + (s[|s| - 1] as int - '0' as int)
  }

  function TrimLeft(s: string): string {
    if s != "" && IsSpace(s[0]) then TrimLeft(s[1..]) else s
  }

  function TrimRight(s: string): string {
    if s != "" && IsSpace(s[|s| - 1]) then TrimRight(s[..|s| - 1]) else s
  }

  // 0 unless the trimmed text is an optionally signed 32-bit decimal.
  function ToInt(s: string): int {
    var t := TrimRight(TrimLeft(s));
    var digits := if t != "" && (t[0] == '-' || t[0] == '+') then t[1..] else t;
    if digits == "" || !AllDigits(digits) then 0
    else
      var v := if t[0] == '-' then 0 - DigitsValue(digits) else DigitsValue(digits);
      if -0x8000_0000 <= v < 0x8000_0000 then v else 0
  }

  function ToInt8(v: int): (r: int)
    ensures -128 <= r < 128 && (r - v) % 256 == 0
  {
    (v + 128) % 256 - 128
  }

  // ---------- what that reads, in decimal numbers ----------

  function Digit(d: nat): char
    requires d < 10
  {
    ('0' as int + d) as char
  }

  function Decimal(n: nat): (s: string)
    ensures s != "" && AllDigits(s)
  {
    if n < 10 then [Digit(n)] else Decimal(n / 10) + [Digit(n % 10)]
  }

  lemma {:induction false} DecimalValue(n: nat)
    ensures DigitsValue(Decimal(n)) == n
  {
    if n >= 10 {
      DecimalValue(n / 10);
      var s := Decimal(n);
      assert s[..|s| - 1] == Decimal(n / 10);
    } else {
      assert Decimal(n)[..0] == "";
    }
  }

  lemma NothingTrimmed(s: string)
    requires s != "" && !IsSpace(s[0]) && !IsSpace(s[|s| - 1])
    ensures TrimRight(TrimLeft(s)) == s
  {}

  lemma SignedReads(sign: char, n: nat)
    requires sign == '+' || sign == '-'
    ensures ToInt([sign] + Decimal(n))
            == var v := if sign == '-' then 0 - n else n; if -2147483648 <= v <= 2147483647 then v else 0
  {
    var s := [sign] + Decimal(n);
    DecimalValue(n);
    assert s[1..] == Decimal(n) && s[|s| - 1] == Decimal(n)[|Decimal(n)| - 1];
    NothingTrimmed(s);
  }

  lemma UnsignedReads(n: nat)
    ensures ToInt(Decimal(n)) == if n <= 2147483647 then n else 0
  {
    DecimalValue(n);
    NothingTrimmed(Decimal(n));
  }

  // A number is read if it fits into 32 bits, with its sign; otherwise 0 is.
  lemma ToIntReads(n: nat)
    ensures ToInt(Decimal(n)) == if n <= 2147483647 then n else 0
    ensures ToInt("+" + Decimal(n)) == if n <= 2147483647 then n else 0
    ensures ToInt("-" + Decimal(n)) == if n <= 2147483648 then 0 - n else 0
  {
    UnsignedReads(n);
    SignedReads('+', n);
    SignedReads('-', n);
  }

  // White space in front does not matter.
  lemma ToIntTrims(c: char, s: string)
    requires c == ' ' || 9 <= c as int <= 13
    ensures ToInt([c] + s) == ToInt(s)
  {
    assert ([c] + s)[1..] == s;
  }

  lemma {:induction false} TrimmedChars(s: string)
    ensures TrimLeft(s) != "" ==> !IsSpace(TrimLeft(s)[0])
    ensures forall i :: 0 <= i < |s| && !IsSpace(s[i]) ==> s[i] in TrimLeft(s)
  {
    if s != "" && IsSpace(s[0]) {
      TrimmedChars(s[1..]);
      assert forall i :: 1 <= i < |s| ==> s[i] == s[1..][i - 1];
    }
  }

  lemma {:induction false} TrimmedEnd(s: string)
    ensures forall c :: c in s && !IsSpace(c) ==> c in TrimRight(s)
  {
    if s != "" && IsSpace(s[|s| - 1]) {
      TrimmedEnd(s[..|s| - 1]);
      assert s == s[..|s| - 1] + [s[|s| - 1]];
    }
  }

  // Anything but digits, signs and white space makes it 0.
  lemma ToIntJunk(s: string, c: char)
    requires c in s && !('0' <= c <= '9') && c != '+' && c != '-' && c != ' ' && !(9 <= c as int <= 13)
    ensures ToInt(s) == 0
  {
    var i :| 0 <= i < |s| && s[i] == c;
    TrimmedChars(s);
    TrimmedEnd(TrimLeft(s));
    var t := TrimRight(TrimLeft(s));
    assert c in t;
    var j :| 0 <= j < |t| && t[j] == c;
    if t[0] == '-' || t[0] == '+' {
      assert t[1..][j - 1] == c;
    }
  }
}
