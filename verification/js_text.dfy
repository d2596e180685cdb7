/** Pieces of JavaScript's built-in string and number behaviour that the
    widgets rely on, stated over Dafny strings and unbounded integers. */
module JsText {

  datatype Option<+T> = None | Some(value: T)

  /** The regular-expression class `\d`. */
  predicate IsDigit(c: char) { '0' <= c <= '9' }

  /** The regular-expression class `\w`; `\b` is a change between `\w` and non-`\w`. */
  predicate IsWordChar(c: char) {
    IsDigit(c) || 'a' <= c <= 'z' || 'A' <= c <= 'Z' || c == '_'
  }

  /** The characters `String.prototype.trim` strips: WhiteSpace and LineTerminator. */
  predicate IsJsWhitespace(c: char) {
    || c == '\t' || c == '\n' || c == '\U{B}' || c == '\U{C}' || c == '\r' || c == ' '
    || c == '\U{A0}' || c == '\U{1680}' || ('\U{2000}' <= c <= '\U{200A}')
    || c == '\U{2028}' || c == '\U{2029}' || c == '\U{202F}' || c == '\U{205F}'
    || c == '\U{3000}' || c == '\U{FEFF}'
  }

  /** `!s.trim()`: the string is empty once trimmed. */
  predicate IsBlank(s: string) {
    forall k :: 0 <= k < |s| ==> IsJsWhitespace(s[k])
  }

  /** JavaScript `a % b` for a positive divisor: the remainder takes the sign of `a`. */
  function JsRem(a: int, b: int): (r: int)
    requires b > 0
    ensures a >= 0 ==> r == a % b
    ensures a < 0 ==> -b < r <= 0
  {
    if a >= 0 then a % b else -((-a) % b)
  }

  function DigitChar(n: int): (c: char)
    requires 0 <= n <= 9
    ensures IsDigit(c)
  {
    (48 + n) as char
  }

  function DigitValue(c: char): (n: nat)
    requires IsDigit(c)
    ensures n <= 9 && DigitChar(n) == c
  {
    (c as int) - 48
  }

  predicate AllDigits(s: string) {
    forall k :: 0 <= k < |s| ==> IsDigit(s[k])
  }

  /** `String(n)` for a non-negative integer: decimal, no leading zeros. */
  function NatToString(n: nat): (r: string)
    ensures |r| >= 1 && AllDigits(r)
    ensures (|r| == 1) == (n < 10)
    ensures r[0] == '0' ==> n == 0
    decreases n
  {
    if n < 10 then [DigitChar(n)] else NatToString(n / 10) + [DigitChar(n % 10)]
  }

  /** `String(n)` for any integer: a minus sign before the magnitude. */
  function IntToString(n: int): string {
    if n < 0 then "-" + NatToString(-n) else NatToString(n)
  }

  /** The value of a run of decimal digits. */
  function DigitsValue(s: string): nat
    requires AllDigits(s)
  {
    if |s| == 0 then 0 else DigitsValue(s[..|s| - 1]) * 10 + DigitValue(s[|s| - 1])
  }

  lemma {:induction false} DigitsRoundTrip(n: nat)
    ensures DigitsValue(NatToString(n)) == n
    decreases n
  {
    if n >= 10 {
      DigitsRoundTrip(n / 10);
      var s := NatToString(n / 10);
      assert (s + [DigitChar(n % 10)])[..|s|] == s;
    }
  }

  /** Length of `String(n)` for small non-negative numbers. */
  lemma NatToStringLength(n: nat)
    ensures n < 10 ==> |NatToString(n)| == 1
    ensures 10 <= n < 100 ==> |NatToString(n)| == 2
    ensures 100 <= n < 1000 ==> |NatToString(n)| == 3
    ensures 1000 <= n < 10000 ==> |NatToString(n)| == 4
  {
    if n >= 10 {
      NatToStringLength(n / 10);
    }
  }

  /** The `pad` helper: `n < 10 ? '0' + n : '' + n`. */
  function Pad(n: int): (r: string)
    ensures |r| >= 2
    ensures n < 10 ==> r[0] == '0' && r[1..] == IntToString(n)
    ensures n >= 10 ==> r == NatToString(n)
  {
    if n < 10 then "0" + IntToString(n) else IntToString(n)
  }

  /** For 0..99 the padded form is exactly the two decimal digits of `n`. */
  lemma PadTwoDigits(n: int)
    requires 0 <= n <= 99
    ensures Pad(n) == [DigitChar(n / 10), DigitChar(n % 10)]
  {
    if n >= 10 {
      assert NatToString(n / 10) == [DigitChar(n / 10)];
    }
  }

  /** The longest prefix of `s` made of decimal digits. */
  function DigitPrefix(s: string): (r: string)
    ensures r <= s && AllDigits(r)
    ensures |r| == |s| || !IsDigit(s[|r|])
  {
    if |s| > 0 && IsDigit(s[0]) then [s[0]] + DigitPrefix(s[1..]) else []
  }

  function TrimStart(s: string): (r: string)
    ensures |r| <= |s| && r == s[|s| - |r|..]
    ensures |r| == 0 || !IsJsWhitespace(r[0])
  {
    if |s| > 0 && IsJsWhitespace(s[0]) then TrimStart(s[1..]) else s
  }

  /** The value of a run of digits read after an optional sign; no digits
      at all is `NaN` (`None`). */
  function Signed(negative: bool, ds: string): (r: Option<int>)
    requires AllDigits(ds)
  {
    var v: int := DigitsValue(ds);
    if |ds| == 0 then None
    else if negative then Some(-v)
    else Some(v)
  }

  /** `parseInt(s, 10)`: leading whitespace, an optional sign, then the longest
      run of digits. */
  function ParseInt(s: string): (r: Option<int>) {
    var t := TrimStart(s);
    if |t| > 0 && (t[0] == '-' || t[0] == '+') then Signed(t[0] == '-', DigitPrefix(t[1..]))
    else Signed(false, DigitPrefix(t))
  }

  lemma {:induction false} DigitPrefixOfDigits(ds: string, rest: string)
    requires AllDigits(ds)
    requires |rest| == 0 || !IsDigit(rest[0])
    ensures DigitPrefix(ds + rest) == ds
  {
    var t := ds + rest;
    if |ds| == 0 {
      assert t == rest;
    } else {
      assert t[0] == ds[0] && IsDigit(t[0]);
      assert t[1..] == ds[1..] + rest;
      DigitPrefixOfDigits(ds[1..], rest);
      assert DigitPrefix(t) == [t[0]] + DigitPrefix(t[1..]);
      assert ds == [ds[0]] + ds[1..];
    }
  }

  /** A string that starts with a digit parses as its leading digits. */
  lemma ParseIntLeadingDigit(s: string)
    requires |s| > 0 && IsDigit(s[0])
    ensures ParseInt(s) == Signed(false, DigitPrefix(s))
  {
    assert TrimStart(s) == s by { assert !IsJsWhitespace(s[0]); }
  }

  /** `parseInt` reads back any non-negative integer followed by a non-digit. */
  lemma {:induction false} ParseIntOfNat(n: nat, rest: string)
    requires |rest| == 0 || !IsDigit(rest[0])
    ensures ParseInt(NatToString(n) + rest) == Some(n)
  {
    var ns := NatToString(n);
    var s := ns + rest;
    assert s[0] == ns[0];
    ParseIntLeadingDigit(s);
    DigitPrefixOfDigits(ns, rest);
    DigitsRoundTrip(n);
  }

  /** A string that starts with `-` parses as the negated digits after it. */
  lemma ParseIntMinus(s: string, ds: string, v: int)
    requires |s| > 0 && s[0] == '-' && DigitPrefix(s[1..]) == ds
    requires |ds| > 0 && DigitsValue(ds) == v
    ensures ParseInt(s) == Some(-v)
  {
    assert TrimStart(s) == s by { assert !IsJsWhitespace(s[0]); }
  }

  /** A minus sign, a non-empty run of digits and then a non-digit parse as
      the negated run. */
  lemma ParseIntNegDigits(s: string, ds: string, rest: string, v: int)
    requires AllDigits(ds) && |ds| > 0 && DigitsValue(ds) == v
    requires |rest| == 0 || !IsDigit(rest[0])
    requires |s| > 0 && s[0] == '-' && s[1..] == ds + rest
    ensures ParseInt(s) == Some(-v)
  {
    DigitPrefixOfDigits(ds, rest);
    ParseIntMinus(s, ds, v);
  }

  /** The text after a leading minus sign. */
  lemma MinusTail(ns: string, rest: string)
    ensures var s := "-" + ns + rest; |s| > 0 && s[0] == '-' && s[1..] == ns + rest
  {
  }

  /** `parseInt` reads back a negative integer's text followed by a non-digit. */
  lemma ParseIntOfNegative(n: nat, rest: string)
    requires n > 0
    requires |rest| == 0 || !IsDigit(rest[0])
    ensures ParseInt("-" + NatToString(n) + rest) == Some(-(n as int))
  {
    MinusTail(NatToString(n), rest);
    DigitsRoundTrip(n);
    ParseIntNegDigits("-" + NatToString(n) + rest, NatToString(n), rest, n);
  }

  /** `parseInt` reads back any integer, with its sign, followed by a non-digit. */
  lemma ParseIntOfInt(n: int, rest: string)
    requires |rest| == 0 || !IsDigit(rest[0])
    ensures ParseInt(IntToString(n) + rest) == Some(n)
  {
    if n >= 0 {
      ParseIntOfNat(n, rest);
    } else {
      assert IntToString(n) == "-" + NatToString(-n);
      ParseIntOfNegative(-n, rest);
    }
  }

  /** Length of the run of `c` starting at index `p`. */
  function RunOf(s: string, p: nat, c: char): (n: nat)
    requires p <= |s|
    ensures p + n <= |s|
    ensures forall k :: p <= k < p + n ==> s[k] == c
    ensures p + n == |s| || s[p + n] != c
    decreases |s| - p
  {
    if p < |s| && s[p] == c then 1 + RunOf(s, p + 1, c) else 0
  }

  /** Length of the run of decimal digits starting at index `p`. */
  function DigitRun(s: string, p: nat): (n: nat)
    requires p <= |s|
    ensures p + n <= |s|
    ensures forall k :: p <= k < p + n ==> IsDigit(s[k])
    ensures p + n == |s| || !IsDigit(s[p + n])
    decreases |s| - p
  {
    if p < |s| && IsDigit(s[p]) then 1 + DigitRun(s, p + 1) else 0
  }

  /** A run of zeros is part of the run of digits that starts at the same place. */
  lemma {:induction false} ZerosWithinDigits(s: string, p: nat)
    requires p <= |s|
    ensures RunOf(s, p, '0') <= DigitRun(s, p)
    decreases |s| - p
  {
    if p < |s| && s[p] == '0' {
      ZerosWithinDigits(s, p + 1);
    }
  }

  /** `str.slice(a, b)`: negative indices count from the end, both ends are
      clamped to the string, and a reversed pair gives the empty string. */
  function JsSlice(s: string, a: int, b: int): (r: string)
    ensures |r| <= |s|
  {
    var lo := if a < 0 then (if |s| + a < 0 then 0 else |s| + a) else (if a > |s| then |s| else a);
    var hi := if b < 0 then (if |s| + b < 0 then 0 else |s| + b) else (if b > |s| then |s| else b);
    if lo < hi then s[lo..hi] else ""
  }

  lemma JsSliceInside(s: string, a: int, b: int)
    requires 0 <= a <= b <= |s|
    ensures JsSlice(s, a, b) == s[a..b]
  {
  }

  /** `s.match(/\(/g).length`-style counting of one literal character. */
  function Count(s: string, c: char): (r: nat)
    ensures r == multiset(s)[c]
    ensures r <= |s|
  {
    if |s| == 0 then 0
    else
      assert s == s[..|s| - 1] + [s[|s| - 1]];
      Count(s[..|s| - 1], c) + (if s[|s| - 1] == c then 1 else 0)
  }

  /** `c.repeat(n)` for a single character. */
  function Repeat(c: char, n: nat): (r: string)
    ensures |r| == n
    ensures forall k :: 0 <= k < n ==> r[k] == c
  {
    if n == 0 then [] else [c] + Repeat(c, n - 1)
  }
}

/** Reading a string with its zeros left out: what the leading-zero cleanup
    must keep. */
module ZeroFilter {
  /** The characters of `t` other than `0`, in order. */
  function NonZeros(t: string): string
    decreases |t|
  {
    if |t| == 0 then "" else (if t[0] == '0' then "" else [t[0]]) + NonZeros(t[1..])
  }

  lemma {:induction false} NonZerosAppend(a: string, b: string)
    ensures NonZeros(a + b) == NonZeros(a) + NonZeros(b)
    decreases |a|
  {
    if |a| > 0 {
      assert (a + b)[1..] == a[1..] + b;
      NonZerosAppend(a[1..], b);
    } else {
      assert a + b == b;
    }
  }

  lemma {:induction false} NonZerosOfZeros(t: string)
    requires forall j :: 0 <= j < |t| ==> t[j] == '0'
    ensures NonZeros(t) == ""
    decreases |t|
  {
    if |t| > 0 {
      NonZerosOfZeros(t[1..]);
    }
  }

  /** Rewriting the second half of a concatenation by a string with the
      same non-zero characters. */
  lemma NonZerosChain(whole: string, a: string, b: string, src: string, srcRest: string)
    requires whole == a + b
    requires NonZeros(b) == NonZeros(srcRest)
    requires NonZeros(src) == NonZeros(a) + NonZeros(srcRest)
    ensures NonZeros(whole) == NonZeros(src)
  {
    NonZerosAppend(a, b);
  }

  /** Cutting a string in two at `b`. */
  lemma NonZerosCut(t: string, b: nat)
    requires b <= |t|
    ensures NonZeros(t) == NonZeros(t[..b]) + NonZeros(t[b..])
  {
    assert t == t[..b] + t[b..];
    NonZerosAppend(t[..b], t[b..]);
  }

  /** Zeros in front change nothing. */
  lemma NonZerosAfterZeros(h: string, a: nat)
    requires a <= |h|
    requires forall j :: 0 <= j < a ==> h[j] == '0'
    ensures NonZeros(h) == NonZeros(h[a..])
  {
    NonZerosCut(h, a);
    NonZerosOfZeros(h[..a]);
  }

  lemma SplitNonZeros(t: string, a: nat, b: nat)
    requires a <= b <= |t|
    requires forall j :: 0 <= j < a ==> t[j] == '0'
    ensures NonZeros(t) == NonZeros(t[a..b]) + NonZeros(t[b..])
  {
    NonZerosCut(t, b);
    var head := t[..b];
    NonZerosAfterZeros(head, a);
    assert head[a..] == t[a..b];
  }

  /** The same cut, on the part of `s` from `p` on. */
  lemma SplitNonZerosFrom(s: string, p: nat, a: nat, b: nat)
    requires p <= a <= b <= |s|
    requires forall j :: p <= j < a ==> s[j] == '0'
    ensures NonZeros(s[p..]) == NonZeros(s[a..b]) + NonZeros(s[b..])
  {
    var t := s[p..];
    assert t[a - p..b - p] == s[a..b];
    assert t[b - p..] == s[b..];
    SplitNonZeros(t, a - p, b - p);
  }
}
