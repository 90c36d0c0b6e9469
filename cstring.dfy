/**
 * The C library string routines the import code leans on, over NUL-terminated buffers:
 * strncmp, strstr, a case-insensitive strncmp (mystrncasecmp), isdigit, isspace, atoi.
 * A buffer is a sequence; reading past its end yields NUL, as a terminated C string would.
 */
module CString {
  import opened Common

  /** The C string held in a byte buffer: everything before its first NUL. */
  function CStr(s: seq<Byte>): (r: seq<Byte>)
    ensures |r| <= |s| && r == s[..|r|]
    ensures forall i :: 0 <= i < |r| ==> r[i] != 0
    ensures |r| < |s| ==> s[|r|] == 0
  {
    if s == [] || s[0] == 0 then [] else [s[0]] + CStr(s[1..])
  }

  /** `needle` occurs in `hay` starting at index i. */
  predicate OccursAt(hay: seq<Byte>, needle: seq<Byte>, i: int)
  {
    0 <= i && i + |needle| <= |hay| && hay[i..i + |needle|] == needle
  }

  /** strstr(hay, needle) != NULL, for a needle without NUL. */
  predicate Contains(hay: seq<Byte>, needle: seq<Byte>)
  {
    exists i :: 0 <= i <= |hay| && OccursAt(hay, needle, i)
  }

  function Rest<T>(s: seq<T>): seq<T>
  {
    if s == [] then [] else s[1..]
  }

  /** strncmp(a, b, n) == 0. */
  predicate StrNEq(a: seq<Byte>, b: seq<Byte>, n: nat)
  {
    n == 0 ||
    (ByteAt(a, 0) == ByteAt(b, 0) && (ByteAt(a, 0) == 0 || StrNEq(Rest(a), Rest(b), n - 1)))
  }

  /** Comparing against a literal without NUL is comparing the first n bytes. */
  lemma {:induction false} StrNEqLiteral(a: seq<Byte>, lit: seq<Byte>, n: nat)
    requires n <= |lit|
    requires forall i :: 0 <= i < |lit| ==> lit[i] != 0
    ensures StrNEq(a, lit, n) <==> n <= |a| && a[..n] == lit[..n]
  {
    if n > 0 {
      StrNEqLiteral(Rest(a), Rest(lit), n - 1);
      if n <= |a| {
        assert a[..n] == [a[0]] + Rest(a)[..n - 1];
        assert lit[..n] == [lit[0]] + Rest(lit)[..n - 1];
      }
    }
  }

  function CharAt(s: string, i: int): char
  {
    if 0 <= i < |s| then s[i] else '\0'
  }

  /** tolower for the ASCII letters. */
  function Lower(c: char): char
  {
    if 'A' <= c <= 'Z' then (c as int + 32) as char else c
  }

  /** mystrncasecmp(a, b, n) == 0: equal up to case in the first n characters or up to a common end. */
  predicate StrNCaseEq(a: string, b: string, n: nat)
  {
    n == 0 ||
    (Lower(CharAt(a, 0)) == Lower(CharAt(b, 0)) &&
     (CharAt(a, 0) == '\0' || StrNCaseEq(Rest(a), Rest(b), n - 1)))
  }

  predicate IsDigit(c: int)
  {
    '0' as int <= c <= '9' as int
  }

  predicate IsSpace(c: int)
  {
    c == ' ' as int || (9 <= c <= 13)
  }

  /** The value of the decimal digits that start `s` (all of them). */
  function DigitsValue(s: seq<Byte>, acc: int): int
    decreases |s|
  {
    if s == [] || !IsDigit(s[0]) then acc
    else DigitsValue(s[1..], 10 * acc + (s[0] - '0' as int))
  }

  function SkipSpaces(s: seq<Byte>): (r: seq<Byte>)
    ensures |r| <= |s|
  {
    if s != [] && IsSpace(s[0]) then SkipSpaces(s[1..]) else s
  }

  /**
   * atoi on the C string in `s`: leading white space, an optional sign, then digits.
   * The C function's behaviour on overflow is undefined; here the value is exact.
   */
  function Atoi(s: seq<Byte>): int
  {
    var t := SkipSpaces(CStr(s));
    if t != [] && t[0] == '-' as int then -DigitsValue(t[1..], 0)
    else if t != [] && t[0] == '+' as int then DigitsValue(t[1..], 0)
    else DigitsValue(t, 0)
  }

  /** The conversion of an int to `unsigned int`: reduction modulo 2^32. */
  function ToUnsigned(v: int): (u: U32)
    ensures 0 <= v < 0x1_0000_0000 ==> u == v
  {
    v % 0x1_0000_0000
  }

  /** The bytes of an ASCII string literal. */
  function Ascii(s: string): (r: seq<Byte>)
    requires forall i :: 0 <= i < |s| ==> s[i] as int < 0x100
    ensures |r| == |s|
    ensures forall i :: 0 <= i < |s| ==> r[i] == s[i] as int
  {
    if s == [] then [] else [s[0] as int] + Ascii(s[1..])
  }

  /** The decimal digits of `n`, most significant first, as printf("%u") writes them. */
  function Decimal(n: nat): (s: seq<Byte>)
    ensures 1 <= |s| && forall i :: 0 <= i < |s| ==> IsDigit(s[i])
    ensures n < 10 ==> |s| == 1
  {
    if n < 10 then [48 + n] else Decimal(n / 10) + [48 + n % 10]
  }

  /** A number below 10^10 (so every 32-bit value) prints in at most 10 digits. */
  lemma {:induction false} DecimalLength(n: nat, bound: nat, digits: nat)
    requires bound == Pow10(digits) && n < bound && digits >= 1
    ensures |Decimal(n)| <= digits
  {
    if n >= 10 {
      assert bound == 10 * Pow10(digits - 1);
      DecimalLength(n / 10, Pow10(digits - 1), digits - 1);
    }
  }

  function Pow10(k: nat): (p: nat)
    ensures p >= 1
  {
    if k == 0 then 1 else 10 * Pow10(k - 1)
  }

  /** Reading digits then more text: the digits set the accumulator the rest starts from. */
  lemma {:induction false} DigitsValueAppend(ds: seq<Byte>, rest: seq<Byte>, acc: int)
    requires forall i :: 0 <= i < |ds| ==> IsDigit(ds[i])
    ensures DigitsValue(ds + rest, acc) == DigitsValue(rest, DigitsValue(ds, acc))
  {
    if ds != [] {
      assert (ds + rest)[1..] == ds[1..] + rest;
      DigitsValueAppend(ds[1..], rest, 10 * acc + (ds[0] - '0' as int));
    } else {
      assert ds + rest == rest;
    }
  }

  /** The digits of `n` read back give `n`. */
  lemma {:induction false} DigitsValueOfDecimal(n: nat)
    ensures DigitsValue(Decimal(n), 0) == n
  {
    if n >= 10 {
      DigitsValueOfDecimal(n / 10);
      DigitsValueAppend(Decimal(n / 10), [48 + n % 10], 0);
    }
  }

  /** Prepending bytes that are not NUL to a buffer prepends them to its C string. */
  lemma {:induction false} CStrAppend(a: seq<Byte>, b: seq<Byte>)
    requires forall i :: 0 <= i < |a| ==> a[i] != 0
    ensures CStr(a + b) == a + CStr(b)
  {
    if a != [] {
      assert (a + b)[1..] == a[1..] + b;
      CStrAppend(a[1..], b);
    } else {
      assert a + b == b;
    }
  }

  /** atoi of a printed number followed by anything that is not a digit gives the number back. */
  lemma AtoiDecimal(n: nat, rest: seq<Byte>)
    requires rest == [] || !IsDigit(rest[0])
    ensures Atoi(Decimal(n) + rest) == n
  {
    var d := Decimal(n);
    CStrAppend(d, rest);
    var t := CStr(d + rest);
    assert t == d + CStr(rest);
    assert SkipSpaces(t) == t;
    DigitsValueAppend(d, CStr(rest), 0);
    DigitsValueOfDecimal(n);
    assert CStr(rest) == [] || !IsDigit(CStr(rest)[0]);
  }
}
