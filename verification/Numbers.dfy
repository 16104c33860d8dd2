/** The C library's number printing and reading, as the HTTP code uses it:
    sprintf with %i, %u and %lu, atoi, and sscanf with %x, on a 64-bit Linux. */
module Numbers {
  import opened Text

  const TWO_31: int := 0x8000_0000
  const TWO_32: int := 0x1_0000_0000
  /** An int of the platform. */
  type Int32 = n: int | -0x8000_0000 <= n < 0x8000_0000

  const TWO_63: int := 0x8000_0000_0000_0000
  const TWO_64: int := 0x1_0000_0000_0000_0000

  function ToUint32(v: int): nat {
    v % 0x1_0000_0000
  }

  function ToInt32(v: int): int {
    (v + 0x8000_0000) % 0x1_0000_0000 - 0x8000_0000
  }

  lemma SmallNumbers(n: int)
    ensures 0 <= n < TWO_32 ==> ToUint32(n) == n
    ensures -TWO_31 <= n < TWO_31 ==> ToInt32(n) == n
    ensures ToUint32(ToInt32(n)) == ToUint32(n)
  {
    var q := (n + 0x8000_0000) / 0x1_0000_0000;
    assert ToInt32(n) == n - q * 0x1_0000_0000;
  }

  // ------------------------------------------------------------ digits

  /** The value of a digit in any base up to 16; 99 for every other character. */
  function DigitVal(c: char): nat {
    if '0' <= c <= '9' then c as int - '0' as int
    else if 'a' <= c <= 'f' then c as int - 'a' as int + 10
    else if 'A' <= c <= 'F' then c as int - 'A' as int + 10
    else 99
  }

  predicate Digits(s: string, base: nat) {
    forall k | 0 <= k < |s| :: DigitVal(s[k]) < base
  }

  /** No digit follows. */
  predicate Stops(s: string, base: nat) {
    s == "" || DigitVal(s[0]) >= base
  }

  /** Reads the leading digits of `s` behind a number already worth `acc`. */
  function Value(s: string, base: nat, acc: nat): nat {
    if Stops(s, base) then acc else Value(s[1..], base, acc * base + DigitVal(s[0]))
  }

  lemma {:induction false} ValueOfConcat(a: string, b: string, base: nat, acc: nat)
    requires Digits(a, base)
    ensures Value(a + b, base, acc) == Value(b, base, Value(a, base, acc))
  {
    if a == "" {
      assert a + b == b;
    } else {
      assert (a + b)[1..] == a[1..] + b;
      ValueOfConcat(a[1..], b, base, acc * base + DigitVal(a[0]));
    }
  }

  // ------------------------------------------------------------ spelling

  /** `c` is the digit for `d`, in either case. */
  predicate IsDigit(c: char, d: nat) {
    d < 16 && (c == "0123456789abcdef"[d] || c == "0123456789ABCDEF"[d])
  }

  /** `s` spells `n` position by position, possibly with zeros in front. */
  predicate Spells(s: string, n: nat, base: nat)
    requires base == 10 || base == 16
  {
    s != "" && IsDigit(s[|s| - 1], n % base)
    && if |s| == 1 then n < base else Spells(s[..|s| - 1], n / base, base)
  }

  lemma DigitValIsExact(c: char, d: nat)
    requires d < 16
    ensures DigitVal(c) == d <==> IsDigit(c, d)
  {
    assert forall k | 0 <= k < 10 :: "0123456789abcdef"[k] == "0123456789ABCDEF"[k] == '0' + k as char;
    assert forall k | 10 <= k < 16 :: "0123456789abcdef"[k] == 'a' + (k - 10) as char;
    assert forall k | 10 <= k < 16 :: "0123456789ABCDEF"[k] == 'A' + (k - 10) as char;
  }

  lemma Positions(q: nat, d: nat, base: nat)
    requires (base == 10 || base == 16) && d < base
    ensures (q * base + d) / base == q && (q * base + d) % base == d
  {}

  lemma ValueOfLast(s: string, base: nat)
    requires s != "" && Digits(s, base)
    ensures Value(s, base, 0) == Value(s[..|s| - 1], base, 0) * base + DigitVal(s[|s| - 1])
  {
    var last := [s[|s| - 1]];
    assert s == s[..|s| - 1] + last && last[1..] == "";
    ValueOfConcat(s[..|s| - 1], last, base, 0);
  }

  lemma DigitsLast(s: string, base: nat)
    requires s != ""
    ensures Digits(s, base) <==> Digits(s[..|s| - 1], base) && DigitVal(s[|s| - 1]) < base
  {
    var front := s[..|s| - 1];
    assert forall k | 0 <= k < |front| :: front[k] == s[k];
  }

  /** Digits are read as the number they spell. */
  lemma {:induction false} SpellsIsRead(s: string, n: nat, base: nat)
    requires base == 10 || base == 16
    ensures Spells(s, n, base) <==> s != "" && Digits(s, base) && Value(s, base, 0) == n
    decreases |s|
  {
    if s != "" {
      var front, c := s[..|s| - 1], s[|s| - 1];
      DigitValIsExact(c, n % base);
      DigitsLast(s, base);
      if |s| > 1 { SpellsIsRead(front, n / base, base); }
      if Digits(s, base) {
        ValueOfLast(s, base);
        Positions(Value(front, base, 0), DigitVal(c), base);
      }
    }
  }

  // ------------------------------------------------------------ printing

  /** %lu and %u. */
  function Dec(n: nat): (s: string)
    ensures s != "" && Digits(s, 10)
    ensures forall k | 0 <= k < |s| :: '0' <= s[k] <= '9'
  {
    if n < 10 then ['0' + n as char] else Dec(n / 10) + ['0' + (n % 10) as char]
  }

  /** %i. */
  function Int(n: int): (s: string)
    ensures s != "" && !IsSpace(s[0]) && !IsSpace(s[|s| - 1])
    ensures forall k | 0 <= k < |s| :: s[k] == '-' || '0' <= s[k] <= '9'
  {
    if n < 0 then "-" + Dec(-n) else Dec(n)
  }

  /** Reading undoes printing, whatever number precedes the digits. */
  lemma {:induction false} ValueOfDec(n: nat)
    ensures Value(Dec(n), 10, 0) == n
  {
    if n >= 10 {
      var last := ['0' + (n % 10) as char];
      ValueOfDec(n / 10);
      ValueOfConcat(Dec(n / 10), last, 10, 0);
      assert last[1..] == "";
    } else {
      assert Dec(n)[1..] == "";
    }
  }

  lemma DecIsInjective(m: nat, n: nat)
    requires Dec(m) == Dec(n)
    ensures m == n
  {
    ValueOfDec(m);
    ValueOfDec(n);
  }

  function Pow10(k: nat): nat {
    if k == 0 then 1 else 10 * Pow10(k - 1)
  }

  lemma {:induction false} DecLength(n: nat, k: nat)
    requires n < Pow10(k + 1) && (k > 0 ==> n >= Pow10(k))
    ensures |Dec(n)| == k + 1
  {
    if k > 0 {
      assert n >= 10 by { if k > 1 { assert Pow10(k) == 100 * Pow10(k - 2); Pow10Positive(k - 2); } }
      DecLength(n / 10, k - 1);
    }
  }

  lemma {:induction false} Pow10Positive(k: nat)
    ensures Pow10(k) >= 1
  {
    if k > 0 { Pow10Positive(k - 1); }
  }

  lemma {:induction false} DecFits(n: nat, k: nat)
    requires k > 0 && n < Pow10(k)
    ensures |Dec(n)| <= k
  {
    if n >= 10 { DecFits(n / 10, k - 1); }
  }

  /** The digits of an int or an unsigned int always fit. */
  lemma IntFits(n: int)
    requires -TWO_31 <= n < TWO_32
    ensures |Int(n)| <= 11
  {
    assert Pow10(5) == 100_000 && Pow10(10) == 100_000 * Pow10(5);
    DecFits(if n < 0 then -n else n, 10);
  }

  function Hex(n: nat): string {
    if n < 16 then ["0123456789abcdef"[n]] else Hex(n / 16) + ["0123456789abcdef"[n % 16]]
  }

  /** Every number has a spelling. */
  lemma {:induction false} HexSpells(n: nat)
    ensures Spells(Hex(n), n, 16)
  {
    if n >= 16 {
      HexSpells(n / 16);
      assert Hex(n)[..|Hex(n)| - 1] == Hex(n / 16);
    }
  }

  // ------------------------------------------------------------ atoi

  predicate Negative(s: string) {
    s != "" && s[0] == '-'
  }

  function SkipSign(s: string): string {
    if s != "" && (s[0] == '-' || s[0] == '+') then s[1..] else s
  }

  /** strtol in base 10: a value out of range becomes the nearest long. */
  function StrToL(s: string): (v: int)
    ensures -TWO_63 <= v < TWO_63
  {
    var t := TrimLeft(s);
    var m: int := Value(SkipSign(t), 10, 0);
    var v := if Negative(t) then -m else m;
    if v >= TWO_63 then TWO_63 - 1 else if v < -TWO_63 then -TWO_63 else v
  }

  /** atoi: strtol cast to int. */
  function Atoi(s: string): (v: int)
    ensures -TWO_31 <= v < TWO_31
  {
    ToInt32(StrToL(s))
  }

  /** White space and a sign in front of what `t` is. */
  predicate Signed(s: string, lead: string, sign: string, t: string) {
    && s == lead + (sign + t) && AllSpace(lead)
    && (sign == "" || sign == "+" || sign == "-")
    && (t != "" ==> sign != "" || (!IsSpace(t[0]) && t[0] != '+' && t[0] != '-'))
  }

  function SignedValue(sign: string, n: int): int {
    if sign == "-" then -n else n
  }

  lemma SignedIsSplit(s: string, lead: string, sign: string, t: string)
    requires Signed(s, lead, sign, t)
    ensures SkipSign(TrimLeft(s)) == t && (Negative(TrimLeft(s)) <==> sign == "-")
  {
    TrimLeftUnique(lead, sign + t);
    assert sign + t != "" ==> (sign + t)[0] == if sign == "" then t[0] else sign[0];
    assert sign != "" ==> (sign + t)[1..] == t;
    assert sign == "" ==> sign + t == t;
  }

  lemma ValueInFront(digits: string, rest: string, n: nat, base: nat)
    requires (base == 10 || base == 16) && Spells(digits, n, base) && Stops(rest, base)
    ensures Value(digits + rest, base, 0) == n && !Stops(digits + rest, base)
  {
    SpellsIsRead(digits, n, base);
    ValueOfConcat(digits, rest, base, 0);
    assert (digits + rest)[0] == digits[0];
  }

  /** strtol reads a number behind white space and a sign, in front of anything else, and
      takes the nearest long for one that is out of range. */
  lemma StrToLReads(s: string, lead: string, sign: string, digits: string, n: nat, rest: string)
    requires Signed(s, lead, sign, digits + rest) && Spells(digits, n, 10) && Stops(rest, 10)
    ensures var v := SignedValue(sign, n);
            && (-TWO_63 <= v < TWO_63 ==> StrToL(s) == v)
            && (v >= TWO_63 ==> StrToL(s) == TWO_63 - 1) && (v < -TWO_63 ==> StrToL(s) == -TWO_63)
  {
    SignedIsSplit(s, lead, sign, digits + rest);
    ValueInFront(digits, rest, n, 10);
  }

  /** Without a digit there it reads 0. */
  lemma StrToLNothing(s: string, lead: string, sign: string, rest: string)
    requires Signed(s, lead, sign, rest) && Stops(rest, 10)
    ensures StrToL(s) == 0
  {
    SignedIsSplit(s, lead, sign, rest);
  }

  lemma {:induction false} DecSpells(n: nat)
    ensures Spells(Dec(n), n, 10)
  {
    ValueOfDec(n);
    SpellsIsRead(Dec(n), n, 10);
  }

  lemma StrToLOfInt(n: int, rest: string)
    requires -TWO_63 <= n < TWO_63 && Stops(rest, 10)
    ensures StrToL(Int(n) + rest) == n
  {
    var sign, digits := if n < 0 then "-" else "", Dec(if n < 0 then -n else n);
    DecSpells(if n < 0 then -n else n);
    Assoc(sign, digits, rest);
    assert sign + digits == Int(n) && "" + (sign + (digits + rest)) == sign + (digits + rest);
    assert (digits + rest)[0] == digits[0];
    StrToLReads(Int(n) + rest, "", sign, digits, if n < 0 then -n else n, rest);
  }

  /** Every int comes back from %i. */
  lemma {:induction false} AtoiOfInt(n: int, rest: string)
    requires -TWO_31 <= n < TWO_31 && Stops(rest, 10)
    ensures Atoi(Int(n) + rest) == n
  {
    StrToLOfInt(n, rest);
    SmallNumbers(n);
  }

  /** An unsigned number below 2^63 comes back modulo 2^32 when the int that atoi gives
      is used as an unsigned int again. */
  lemma {:induction false} AtoiOfDec(n: nat)
    requires n < TWO_63
    ensures ToUint32(Atoi(Dec(n))) == ToUint32(n)
  {
    StrToLOfInt(n, "");
    SmallNumbers(n);
    assert Int(n) + "" == Dec(n);
  }

  // ------------------------------------------------------------ sscanf %x

  predicate HexPrefix(s: string) {
    |s| >= 2 && s[0] == '0' && (s[1] == 'x' || s[1] == 'X')
  }

  /** sscanf(s, "%x", &n): None when nothing is converted and n keeps its value. A number
      out of range becomes the greatest unsigned long, whatever its sign. */
  function ScanHex(s: string): (r: Option<nat>)
    ensures r.Some? ==> r.value < TWO_32
  {
    var t := TrimLeft(s);
    var u := SkipSign(t);
    if Stops(u, 16) then None
    else
      var m: int := Value(if HexPrefix(u) then u[2..] else u, 16, 0);
      Some(ToUint32(if m >= TWO_64 then TWO_64 - 1 else if Negative(t) then -m else m))
  }

  /** sscanf reads a hexadecimal number, with or without 0x, behind white space and a sign
      and in front of anything that cannot continue it. */
  lemma ScanHexReads(s: string, lead: string, sign: string, prefix: string, digits: string, n: nat, rest: string)
    requires Signed(s, lead, sign, prefix + (digits + rest)) && Spells(digits, n, 16) && Stops(rest, 16)
    requires prefix == "0x" || prefix == "0X" || (prefix == "" && (rest != "" ==> rest[0] != 'x' && rest[0] != 'X'))
    ensures n < TWO_64 ==> ScanHex(s) == Some(ToUint32(SignedValue(sign, n)))
    ensures n >= TWO_64 ==> ScanHex(s) == Some(TWO_32 - 1)
  {
    var u, t := prefix + (digits + rest), digits + rest;
    SignedIsSplit(s, lead, sign, u);
    ValueInFront(digits, rest, n, 16);
    SpellsIsRead(digits, n, 16);
    if prefix == "" {
      assert u == t;
      NoPrefix(digits, rest);
    } else {
      assert u[0] == '0' && u[1] == prefix[1] && u[2..] == t;
    }
  }

  lemma NoPrefix(digits: string, rest: string)
    requires Digits(digits, 16) && digits != "" && (rest != "" ==> rest[0] != 'x' && rest[0] != 'X')
    ensures !HexPrefix(digits + rest)
  {
    if |digits| >= 2 { assert (digits + rest)[1] == digits[1] && DigitVal(digits[1]) < 16; }
  }

  /** Without a digit there nothing is converted. */
  lemma ScanHexNothing(s: string, lead: string, sign: string, rest: string)
    requires Signed(s, lead, sign, rest) && Stops(rest, 16)
    ensures ScanHex(s) == None
  {
    SignedIsSplit(s, lead, sign, rest);
  }
}
