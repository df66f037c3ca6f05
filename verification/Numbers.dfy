/** The integer printer of printf and the number parser of the boot arguments: inverse to each other on
    every 64-bit value. */
module Numbers {
  import opened Masks

  const WORD: nat := 0x1_0000_0000_0000_0000
  const BUFFER: nat := 32

  datatype Flags = Flags(zeropad: bool, left: bool, plus: bool, space: bool, hash: bool, upper: bool, precision: bool)

  // ----- digits

  function DigitChar(d: nat, upper: bool): char
    requires d < 16
  {
    if d < 10 then '0' + d as char else (if upper then 'A' else 'a') + (d - 10) as char
  }

  /** The digits of v, least significant first. */
  function Digits(v: nat, base: nat, upper: bool): (s: seq<char>)
    requires 2 <= base <= 16
    ensures |s| > 0
    decreases v
  {
    if v < base then [DigitChar(v, upper)] else [DigitChar(v % base, upper)] + Digits(v / base, base, upper)
  }

  function Reverse(s: seq<char>): (r: seq<char>)
    ensures |r| == |s| && forall i | 0 <= i < |s| :: r[i] == s[|s| - 1 - i]
  {
    if s == [] then [] else Reverse(s[1..]) + [s[0]]
  }

  /** The digits of v as printed, most significant first. */
  function Text(v: nat, base: nat, upper: bool): seq<char>
    requires 2 <= base <= 16
  {
    Reverse(Digits(v, base, upper))
  }

  lemma DivShrinks(v: nat, base: nat)
    requires base >= 2
    ensures v >= base ==> 0 < v / base < v
    ensures v < base ==> v / base == 0 && v % base == v
    ensures v % base < base
  {}

  lemma DigitsUnroll(v: nat, base: nat, upper: bool)
    requires 2 <= base <= 16
    ensures v % base < 16
    ensures Digits(v, base, upper) == [DigitChar(v % base, upper)] + if v / base == 0 then [] else Digits(v / base, base, upper)
  {
    DivShrinks(v, base);
  }

  lemma TextUnroll(v: nat, base: nat, upper: bool)
    requires 2 <= base <= 16
    ensures v < base ==> Text(v, base, upper) == [DigitChar(v, upper)]
    ensures v >= base ==> Text(v, base, upper) == Text(v / base, base, upper) + [DigitChar(v % base, upper)]
  {
    var s := Digits(v, base, upper);
    if v < base {
      assert s[1..] == [];
    } else {
      assert s[1..] == Digits(v / base, base, upper);
    }
  }

  /** The value of a text in a base, by position. */
  function ValueOf(s: seq<char>, base: nat): int {
    if s == [] then 0 else ValueOf(s[..|s| - 1], base) * base + FaceValue(s[|s| - 1])
  }

  function FaceValue(c: char): int {
    if '0' <= c <= '9' then c as int - '0' as int
    else if 'a' <= c <= 'f' then c as int - 'a' as int + 10
    else if 'A' <= c <= 'F' then c as int - 'A' as int + 10
    else -1
  }

  lemma ValueOne(c: char, base: nat)
    ensures ValueOf([c], base) == FaceValue(c)
  {
    assert [c][..0] == [];
  }

  lemma ValueSnoc(s: seq<char>, c: char, base: nat)
    ensures ValueOf(s + [c], base) == ValueOf(s, base) * base + FaceValue(c)
  {
    assert (s + [c])[..|s|] == s;
  }

  lemma FaceOfDigit(d: nat, upper: bool)
    requires d < 16
    ensures FaceValue(DigitChar(d, upper)) == d
  {}

  lemma Recombine(v: nat, base: nat)
    requires base > 0
    ensures v / base * base + v % base == v && v % base < base
  {}

  /** The text of a number has its value, in every base, with digits below the base. */
  lemma {:induction false} TextHasValue(v: nat, base: nat, upper: bool)
    requires 2 <= base <= 16
    ensures ValueOf(Text(v, base, upper), base) == v
    ensures forall i | 0 <= i < |Text(v, base, upper)| :: 0 <= FaceValue(Text(v, base, upper)[i]) < base
    decreases v
  {
    hide ValueOf, FaceValue, DigitChar, Digits, Text;
    TextUnroll(v, base, upper);
    DivShrinks(v, base);
    if v < base {
      FaceOfDigit(v, upper);
      ValueOne(DigitChar(v, upper), base);
    } else {
      var q := v / base;
      Recombine(v, base);
      TextHasValue(q, base, upper);
      FaceOfDigit(v % base, upper);
      ValueSnoc(Text(q, base, upper), DigitChar(v % base, upper), base);
    }
  }

  function Power(b: nat, k: nat): nat {
    if k == 0 then 1 else b * Power(b, k - 1)
  }

  /** A number has at most k digits exactly when it is below base^k. */
  lemma {:induction false} DigitsFit(v: nat, base: nat, upper: bool, k: nat)
    requires 2 <= base <= 16 && k > 0
    ensures |Digits(v, base, upper)| <= k <==> v < Power(base, k)
    decreases k
  {
    hide Power, Digits;
    PowerStep(base, k);
    DigitsCount(v, base, upper);
    if v >= base {
      Quotient(v, base, Power(base, k - 1));
      if k > 1 { DigitsFit(v / base, base, upper, k - 1); }
    } else {
      PowerPositive(base, k - 1);
      FactorAtLeast(base, Power(base, k - 1));
    }
  }

  lemma PowerStep(b: nat, k: nat)
    ensures Power(b, k) == if k == 0 then 1 else b * Power(b, k - 1)
    ensures Power(b, 0) == 1
  {}

  lemma FactorAtLeast(b: nat, p: nat)
    requires p >= 1
    ensures b * p >= b
  {}

  lemma DigitsCount(v: nat, base: nat, upper: bool)
    requires 2 <= base <= 16
    ensures |Digits(v, base, upper)| == if v >= base then 1 + |Digits(v / base, base, upper)| else 1
    ensures v >= base ==> v / base > 0 && |Digits(v / base, base, upper)| > 0
  {
    DivShrinks(v, base);
    DigitsUnroll(v, base, upper);
    DigitsUnroll(v / base, base, upper);
  }

  lemma Quotient(v: nat, base: nat, p: nat)
    requires base > 0
    ensures v / base < p <==> v < base * p
  {
    var q, r := v / base, v % base;
    assert v == base * q + r;
    if q < p {
      assert base * (q + 1) <= base * p;
    } else {
      assert base * p <= base * q;
    }
  }

  lemma {:induction false} PowerPositive(b: nat, k: nat)
    requires b > 0
    ensures Power(b, k) >= 1
  {
    if k > 0 {
      PowerPositive(b, k - 1);
      assert b * Power(b, k - 1) >= 1 * Power(b, k - 1);
    }
  }

  lemma {:induction false} PowerSum(b: nat, j: nat, k: nat)
    ensures Power(b, j + k) == Power(b, j) * Power(b, k)
  {
    hide Power;
    PowerStep(b, j);
    PowerStep(b, j + k);
    if j > 0 {
      PowerSum(b, j - 1, k);
      assert j - 1 + k == j + k - 1;
      Regroup(b, Power(b, j - 1), Power(b, k));
    }
  }

  lemma Regroup(x: nat, y: nat, z: nat)
    ensures x * (y * z) == (x * y) * z
  {}

  /** Decimal, octal and hexadecimal digits of a 64-bit value always fit the digit buffer, with room for a
      prefix and a sign; binary digits fit it exactly below 2^32. */
  lemma DigitsFitBuffer(v: nat, base: nat, upper: bool)
    requires v < WORD && base in {2, 8, 10, 16}
    ensures base != 2 ==> |Digits(v, base, upper)| + 3 <= BUFFER
    ensures base == 2 ==> (|Digits(v, base, upper)| <= BUFFER <==> v < 0x1_0000_0000)
  {
    var small := Power(base, 11);
    assert Power(8, 11) == 0x2_0000_0000 && Power(10, 11) == 100_000_000_000 && Power(16, 11) == 0x1000_0000_0000 by {
      assert Power(8, 4) == 4096 && Power(10, 4) == 10000 && Power(16, 4) == 65536;
      PowerSum(8, 4, 4);
      PowerSum(8, 3, 8);
      PowerSum(10, 4, 4);
      PowerSum(10, 3, 8);
      PowerSum(16, 4, 4);
      PowerSum(16, 3, 8);
    }
    PowerSum(base, 11, 11);
    DigitsFit(v, base, upper, 22);
    PowerTwo();
    DigitsFit(v, base, upper, 32);
  }

  lemma PowerTwo()
    ensures Power(2, 32) == 0x1_0000_0000
  {
    assert Power(2, 4) == 16;
    PowerSum(2, 4, 4);
    PowerSum(2, 8, 8);
    PowerSum(2, 16, 16);
  }

  // ----- the printer

  function Spaces(n: int): (s: seq<char>)
    ensures |s| == if n > 0 then n else 0
  {
    if n <= 0 then [] else Spaces(n - 1) + [' ']
  }

  function Zeros(n: int): (s: seq<char>)
    ensures |s| == if n > 0 then n else 0
  {
    if n <= 0 then [] else Zeros(n - 1) + ['0']
  }

  /** Spaces up to the width, on the side the flags ask for. */
  function Fill(s: seq<char>, width: nat, flags: Flags): seq<char> {
    Spaces(if !flags.left && !flags.zeropad then width - |s| else 0) + s + Spaces(if flags.left then width - |s| else 0)
  }

  /** What `#` puts before the digits. */
  function Prefix(base: nat, upper: bool): seq<char> {
    if base == 16 then (if upper then "0X" else "0x") else if base == 2 then "0b" else "0"
  }

  function Sign(negative: bool, flags: Flags): seq<char> {
    if negative then "-" else if flags.plus then "+" else if flags.space then " " else ""
  }

  /** The width that zero padding goes up to: a sign takes one place of it. */
  function Room(width: nat, negative: bool, flags: Flags): nat {
    if !flags.left && flags.zeropad && width != 0 && Sign(negative, flags) != [] then width - 1 else width
  }

  function Max(x: nat, y: nat): nat { if x < y then y else x }

  function Min(x: nat, y: nat): nat { if x < y then x else y }

  /** How many places digits and leading zeros take. */
  function ZerosTo(len: nat, prec: nat, width: nat, flags: Flags): nat {
    var z := Max(len, Min(prec, BUFFER));
    if flags.left then len else if flags.zeropad then Max(z, Min(width, BUFFER)) else z
  }

  /** Where the prefix goes: over the last of these places when they just fill the precision or the width. */
  function PrefixAt(z: nat, base: nat, prec: nat, width: nat, flags: Flags): nat {
    if !flags.hash || flags.precision || z == 0 || (z != prec && z != width) then z
    else if base == 16 && z > 1 then z - 2
    else z - 1
  }

  function HashPart(base: nat, flags: Flags): seq<char> {
    if flags.hash then Prefix(base, flags.upper) else []
  }

  /** As much of s as still goes into the buffer behind k entries. */
  function Cut(s: seq<char>, k: nat): seq<char>
    requires k <= BUFFER
  {
    if k + |s| <= BUFFER then s else s[..BUFFER - k]
  }

  /** Digits and n zeros, then prefix and sign from place k on, each cut off at the buffer's end. */
  function Stack(digits: seq<char>, n: nat, k: nat, prefix: seq<char>, sign: seq<char>): (s: seq<char>)
    requires k <= |digits| + n && k <= BUFFER
    ensures |s| == Min(BUFFER, k + |prefix| + |sign|)
  {
    var s := (digits + Zeros(n))[..k] + Cut(Reverse(prefix), k);
    s + Cut(sign, |s|)
  }

  /** The buffer that is printed backwards. */
  function Buffered(digits: seq<char>, negative: bool, base: nat, prec: nat, width: nat, flags: Flags): (s: seq<char>)
    requires |digits| <= BUFFER
    ensures |s| <= BUFFER
  {
    var z := ZerosTo(|digits|, prec, width, flags);
    Stack(digits, z - |digits|, PrefixAt(z, base, prec, width, flags), HashPart(base, flags), Sign(negative, flags))
  }

  /** What is printed for these digits, least significant first. */
  function Shown(digits: seq<char>, negative: bool, base: nat, prec: nat, width: nat, flags: Flags): seq<char>
    requires |digits| <= BUFFER
  {
    var w := Room(width, negative, flags);
    Fill(Reverse(Buffered(digits, negative, base, prec, w, flags)), w, flags)
  }

  /** `_out_rev`: the buffer backwards, padded with spaces to the width. */
  method OutRev(buf: array<char>, len: nat, width: nat, flags: Flags) returns (text: seq<char>)
    requires len <= buf.Length
    ensures text == Fill(Reverse(buf[..len]), width, flags)
  {
    hide Reverse;
    text := [];
    if !flags.left && !flags.zeropad {
      var i := len;
      while i < width
        invariant text == Spaces(i - len) && len <= i && (i <= width || i == len)
      {
        text := text + [' '];
        i := i + 1;
      }
    }
    ghost var pad := text;
    var n := len;
    while n > 0
      invariant 0 <= n <= len && text == pad + Reverse(buf[..len])[..len - n]
    {
      n := n - 1;
      text := text + [buf[n]];
    }
    ghost var body := text;
    assert body == pad + Reverse(buf[..len]);
    if flags.left {
      while |text| < width
        invariant |text| >= len && text == body + Spaces(|text| - len) && (|text| <= width || |text| == len)
      {
        text := text + [' '];
      }
    }
  }

  /** Leading zeros up to the precision and the zero-padded width, as far as the buffer goes. */
  method PadZeros(buf: array<char>, len0: nat, prec: nat, width: nat, flags: Flags) returns (len: nat)
    requires buf.Length == BUFFER && len0 <= BUFFER && !flags.left
    modifies buf
    ensures len == ZerosTo(len0, prec, width, flags)
    ensures buf[..len] == old(buf[..len0]) + Zeros(len - len0)
  {
    hide Zeros;
    ghost var digits := buf[..len0];
    len := len0;
    NoZeros(digits);
    while len < prec && len < BUFFER
      invariant len0 <= len <= Max(len0, Min(prec, BUFFER)) && buf[..len] == digits + Zeros(len - len0)
    {
      ghost var text := buf[..len];
      OneZero(digits, len - len0, text);
      buf[len] := '0';
      assert buf[..len + 1] == text + ['0'];
      len := len + 1;
    }
    while flags.zeropad && len < width && len < BUFFER
      invariant Max(len0, Min(prec, BUFFER)) <= len <= ZerosTo(len0, prec, width, flags)
      invariant buf[..len] == digits + Zeros(len - len0)
    {
      ghost var text := buf[..len];
      OneZero(digits, len - len0, text);
      buf[len] := '0';
      assert buf[..len + 1] == text + ['0'];
      len := len + 1;
    }
  }

  method AddPrefix(buf: array<char>, len0: nat, base: nat, prec: nat, width: nat, flags: Flags) returns (len: nat)
    requires buf.Length == BUFFER && len0 <= BUFFER && flags.hash
    modifies buf
    ensures len <= BUFFER
    ensures var k := PrefixAt(len0, base, prec, width, flags);
      buf[..len] == old(buf[..k]) + Cut(Reverse(Prefix(base, flags.upper)), k)
  {
    len := len0;
    if !flags.precision && len != 0 && (len == prec || len == width) {
      len := len - 1;
      if len != 0 && base == 16 { len := len - 1; }
    }
    if base == 16 && !flags.upper && len < BUFFER {
      buf[len] := 'x';
      len := len + 1;
    } else if base == 16 && flags.upper && len < BUFFER {
      buf[len] := 'X';
      len := len + 1;
    } else if base == 2 && len < BUFFER {
      buf[len] := 'b';
      len := len + 1;
    }
    if len < BUFFER {
      buf[len] := '0';
      len := len + 1;
    }
  }

  method AddSign(buf: array<char>, len0: nat, negative: bool, flags: Flags) returns (len: nat)
    requires buf.Length == BUFFER && len0 <= BUFFER
    modifies buf
    ensures len <= BUFFER && buf[..len] == old(buf[..len0]) + Cut(Sign(negative, flags), len0)
  {
    len := len0;
    if len < BUFFER {
      if negative {
        buf[len] := '-';
        len := len + 1;
      } else if flags.plus {
        buf[len] := '+';
        len := len + 1;
      } else if flags.space {
        buf[len] := ' ';
        len := len + 1;
      }
    }
  }

  /** `_ntoa_format`. */
  method NtoaFormat(buf: array<char>, len0: nat, negative: bool, base: nat, prec: nat, width0: nat, flags: Flags) returns (text: seq<char>)
    requires buf.Length == BUFFER && len0 <= BUFFER
    modifies buf
    ensures text == Shown(old(buf[..len0]), negative, base, prec, width0, flags)
  {
    hide Fill, Reverse, Cut, Prefix, Zeros, Shown, Room, Sign, HashPart, PrefixAt, ZerosTo;
    RoomIs(width0, negative, flags);
    ghost var digits := buf[..len0];
    NoZeros(digits);
    var len, width := len0, width0;
    if !flags.left {
      if width != 0 && flags.zeropad && (negative || flags.plus || flags.space) { width := width - 1; }
      len := PadZeros(buf, len, prec, width, flags);
    }
    PrefixWithin(len0, base, prec, width, flags);
    ghost var z, padded := ZerosTo(len0, prec, width, flags), buf[..len];
    if flags.hash { len := AddPrefix(buf, len, base, prec, width, flags); }
    ghost var prefixed := buf[..len];
    HashWritten(padded, prefixed, base, prec, width, flags);
    len := AddSign(buf, len, negative, flags);
    text := OutRev(buf, len, width, flags);
    ShownIs(digits, negative, base, prec, width0, flags, padded, prefixed, buf[..len]);
  }

  lemma HashWritten(s: seq<char>, t: seq<char>, base: nat, prec: nat, width: nat, flags: Flags)
    requires |s| <= BUFFER && PrefixAt(|s|, base, prec, width, flags) <= |s|
    requires var k := PrefixAt(|s|, base, prec, width, flags);
      t == if flags.hash then s[..k] + Cut(Reverse(Prefix(base, flags.upper)), k) else s
    ensures var k := PrefixAt(|s|, base, prec, width, flags); t == s[..k] + Cut(Reverse(HashPart(base, flags)), k)
  {}

  lemma RoomIs(width: nat, negative: bool, flags: Flags)
    ensures Room(width, negative, flags)
            == if !flags.left && flags.zeropad && width != 0 && (negative || flags.plus || flags.space) then width - 1 else width
  {}

  /** The buffer after each of the three steps gives what is shown. */
  lemma ShownIs(digits: seq<char>, negative: bool, base: nat, prec: nat, width: nat, flags: Flags,
                padded: seq<char>, prefixed: seq<char>, signed: seq<char>)
    requires |digits| <= |padded| <= BUFFER && |prefixed| <= BUFFER
    requires var w := Room(width, negative, flags);
      |padded| == ZerosTo(|digits|, prec, w, flags) && PrefixAt(|padded|, base, prec, w, flags) <= |padded|
    requires var k := PrefixAt(|padded|, base, prec, Room(width, negative, flags), flags);
      prefixed == padded[..k] + Cut(Reverse(HashPart(base, flags)), k)
    requires padded == digits + Zeros(|padded| - |digits|) && signed == prefixed + Cut(Sign(negative, flags), |prefixed|)
    ensures var w := Room(width, negative, flags); Shown(digits, negative, base, prec, width, flags) == Fill(Reverse(signed), w, flags)
  {
    hide Fill, Reverse, Cut, Zeros, HashPart, Sign, PrefixAt, ZerosTo, Room, Stack, Min;
    var w := Room(width, negative, flags);
    StackIs(digits, PrefixAt(|padded|, base, prec, w, flags), HashPart(base, flags), Sign(negative, flags), padded, prefixed);
  }

  lemma StackIs(digits: seq<char>, k: nat, prefix: seq<char>, sign: seq<char>, padded: seq<char>, prefixed: seq<char>)
    requires |digits| <= |padded| && k <= |padded| <= BUFFER && padded == digits + Zeros(|padded| - |digits|)
    requires prefixed == padded[..k] + Cut(Reverse(prefix), k)
    ensures |prefixed| <= BUFFER && Stack(digits, |padded| - |digits|, k, prefix, sign) == prefixed + Cut(sign, |prefixed|)
  {}

  lemma NoZeros(s: seq<char>)
    ensures s == s + Zeros(0)
  {}

  lemma OneZero(s: seq<char>, n: nat, t: seq<char>)
    requires t == s + Zeros(n)
    ensures t + ['0'] == s + Zeros(n + 1)
  {}

  lemma ReverseThree(digits: seq<char>, prefix: seq<char>, sign: seq<char>)
    requires |sign| <= 1
    ensures Reverse(digits + Reverse(prefix) + sign) == sign + prefix + Reverse(digits)
  {
    var s := digits + Reverse(prefix) + sign;
    assert forall i | 0 <= i < |s| :: Reverse(s)[i] == s[|s| - 1 - i];
  }

  /** Sign, prefix, n zeros and every digit, padded to the width. */
  function Whole(digits: seq<char>, n: int, negative: bool, base: nat, width: nat, flags: Flags): seq<char> {
    Fill(Sign(negative, flags) + HashPart(base, flags) + (Zeros(n) + Reverse(digits)), width, flags)
  }

  /** With `#`, a width that the digits just fill, or of one more for zero-padded hexadecimal. */
  predicate OverwritesDigits(len: nat, base: nat, width: nat, flags: Flags) {
    flags.hash && (width == len || (base == 16 && flags.zeropad && !flags.left && width == len + 1))
  }

  /** Zeros that leave the buffer no place for what comes before them. */
  predicate CrowdsOut(len: nat, negative: bool, base: nat, width: nat, flags: Flags) {
    var sign := |Sign(negative, flags)|;
    && flags.zeropad && !flags.left && width > len && (flags.hash || sign > 0)
    && width + sign + (if flags.hash && base == 2 then 1 else 0) > BUFFER
  }

  /** Without a precision, sign, prefix and all digits are printed exactly when `#` does not write over digits
      and the zeros do not fill the buffer. */
  lemma DigitsKept(digits: seq<char>, negative: bool, base: nat, width: nat, flags: Flags)
    requires 0 < |digits| && |digits| + 3 <= BUFFER && !flags.precision
    ensures var len, w := |digits|, Room(width, negative, flags);
      var zeros := PrefixAt(ZerosTo(len, 0, w, flags), base, 0, w, flags) - len;
      Shown(digits, negative, base, 0, width, flags) == Whole(digits, zeros, negative, base, w, flags)
      <==> !OverwritesDigits(len, base, w, flags) && !CrowdsOut(len, negative, base, w, flags)
  {
    hide Fill, Buffered, Reverse, Zeros;
    var len, w := |digits|, Room(width, negative, flags);
    var k := PrefixAt(ZerosTo(len, 0, w, flags), base, 0, w, flags);
    Places(len, negative, base, w, flags);
    BufferedLength(digits, negative, base, w, flags);
    var s := Reverse(Buffered(digits, negative, base, 0, w, flags));
    if !OverwritesDigits(len, base, w, flags) && !CrowdsOut(len, negative, base, w, flags) {
      BufferedWhole(digits, negative, base, 0, w, flags);
    } else {
      FillShorter(s, Sign(negative, flags) + HashPart(base, flags) + (Zeros(k - len) + Reverse(digits)), w, flags);
    }
  }

  /** With a precision (which turns zero padding off) there are at least as many digits as it says, unless the
      text is to be left-aligned: then the precision is ignored. */
  lemma PrecisionKept(digits: seq<char>, negative: bool, base: nat, prec: nat, width: nat, flags: Flags)
    requires 0 < |digits| && |digits| + 3 <= BUFFER && prec + 3 <= BUFFER && flags.precision && !flags.zeropad && digits[0] != ' '
    ensures Shown(digits, negative, base, prec, width, flags) == Whole(digits, prec - |digits|, negative, base, width, flags)
       <==> !flags.left || prec <= |digits|
  {
    hide Fill, Buffered, Reverse, Zeros;
    HashLength(base, flags);
    SignLength(negative, flags);
    BufferedWhole(digits, negative, base, prec, width, flags);
    NegativeZeros(prec - |digits|);
    if flags.left && prec > |digits| {
      ReverseLast(digits);
      MoreDigits(Sign(negative, flags) + HashPart(base, flags), Reverse(digits), prec - |digits|, width, flags);
    }
  }

  lemma NegativeZeros(n: int)
    ensures n <= 0 ==> Zeros(n) == Zeros(0)
  {}

  lemma ReverseLast(s: seq<char>)
    requires s != []
    ensures |Reverse(s)| == |s| && Reverse(s)[|s| - 1] == s[0]
  {}

  /** Zeros more or fewer show up behind the last digit. */
  lemma MoreDigits(front: seq<char>, text: seq<char>, n: nat, w: nat, flags: Flags)
    requires flags.left && n > 0 && text != [] && text[|text| - 1] != ' '
    ensures Fill(front + (Zeros(0) + text), w, flags) != Fill(front + (Zeros(n) + text), w, flags)
  {
    var a, b := front + (Zeros(0) + text), front + (Zeros(n) + text);
    var i := |b| - 1;
    assert b[i] == text[|text| - 1];
    FillAt(a, w, flags, i);
    FillAt(b, w, flags, i);
  }

  lemma FillAt(s: seq<char>, w: nat, flags: Flags, i: nat)
    requires flags.left
    ensures |Fill(s, w, flags)| == Max(|s|, w)
    ensures i < |s| ==> Fill(s, w, flags)[i] == s[i]
    ensures |s| <= i < w ==> Fill(s, w, flags)[i] == ' '
  {
    if |s| <= i < w { SpaceAt(w - |s|, i - |s|); }
  }

  lemma {:induction false} SpaceAt(n: nat, i: nat)
    requires i < n
    ensures Spaces(n)[i] == ' '
  {
    if i < n - 1 { SpaceAt(n - 1, i); }
  }

  /** Left-aligned text starts at the front, other text ends at the end; the rest up to the width is spaces. A
      text to be padded with zeros gets no spaces. */
  lemma FillSides(s: seq<char>, w: nat, flags: Flags)
    ensures var t := Fill(s, w, flags);
      if flags.left then |t| == Max(|s|, w) && t[..|s|] == s && forall i | |s| <= i < |t| :: t[i] == ' '
      else if flags.zeropad then t == s
      else |t| == Max(|s|, w) && t[|t| - |s|..] == s && forall i | 0 <= i < |t| - |s| :: t[i] == ' '
  {
    var n := w - |s|;
    if n > 0 {
      forall i: nat | i < n ensures Spaces(n)[i] == ' ' { SpaceAt(n, i); }
    }
  }

  /** What goes in front of the digits. */
  lemma FrontParts(negative: bool, base: nat, flags: Flags)
    ensures negative ==> Sign(negative, flags) == "-"
    ensures !negative ==> Sign(negative, flags) == if flags.plus then "+" else if flags.space then " " else ""
    ensures !flags.hash ==> HashPart(base, flags) == ""
    ensures flags.hash && base == 16 ==> HashPart(base, flags) == if flags.upper then "0X" else "0x"
    ensures flags.hash && base == 8 ==> HashPart(base, flags) == "0"
    ensures flags.hash && base == 2 ==> HashPart(base, flags) == "0b"
  {}

  /** The places taken, in either case. */
  lemma Places(len: nat, negative: bool, base: nat, w: nat, flags: Flags)
    requires 0 < len && len + 3 <= BUFFER && !flags.precision
    ensures var k, more := PrefixAt(ZerosTo(len, 0, w, flags), base, 0, w, flags), |HashPart(base, flags)| + |Sign(negative, flags)|;
      if !OverwritesDigits(len, base, w, flags) && !CrowdsOut(len, negative, base, w, flags) then len <= k && k + more <= BUFFER
      else Min(BUFFER, k + more) < more + Max(len, k) && ((flags.zeropad && !flags.left) || w < more + Max(len, k))
  {}

  lemma BufferedLength(digits: seq<char>, negative: bool, base: nat, w: nat, flags: Flags)
    requires |digits| <= BUFFER
    ensures var k := PrefixAt(ZerosTo(|digits|, 0, w, flags), base, 0, w, flags);
      |Buffered(digits, negative, base, 0, w, flags)| == Min(BUFFER, k + |HashPart(base, flags)| + |Sign(negative, flags)|)
  {}

  lemma BufferedWhole(digits: seq<char>, negative: bool, base: nat, prec: nat, w: nat, flags: Flags)
    requires |digits| <= BUFFER
    requires var k := PrefixAt(ZerosTo(|digits|, prec, w, flags), base, prec, w, flags);
      |digits| <= k && k + |HashPart(base, flags)| + |Sign(negative, flags)| <= BUFFER
    ensures var k := PrefixAt(ZerosTo(|digits|, prec, w, flags), base, prec, w, flags);
      Reverse(Buffered(digits, negative, base, prec, w, flags))
      == Sign(negative, flags) + HashPart(base, flags) + (Zeros(k - |digits|) + Reverse(digits))
  {
    hide Reverse, Zeros, HashPart, Sign, ZerosTo, PrefixAt, Stack, Buffered;
    var z := ZerosTo(|digits|, prec, w, flags);
    var k := PrefixAt(z, base, prec, w, flags);
    PrefixWithin(|digits|, base, prec, w, flags);
    SignLength(negative, flags);
    BufferedIs(digits, negative, base, prec, w, flags);
    Stacked(digits, z - |digits|, k - |digits|, k, HashPart(base, flags), Sign(negative, flags));
  }

  lemma BufferedIs(digits: seq<char>, negative: bool, base: nat, prec: nat, w: nat, flags: Flags)
    requires |digits| <= BUFFER
    ensures |digits| <= ZerosTo(|digits|, prec, w, flags) <= BUFFER
    ensures PrefixAt(ZerosTo(|digits|, prec, w, flags), base, prec, w, flags) <= ZerosTo(|digits|, prec, w, flags)
    ensures var z := ZerosTo(|digits|, prec, w, flags);
      Buffered(digits, negative, base, prec, w, flags)
      == Stack(digits, z - |digits|, PrefixAt(z, base, prec, w, flags), HashPart(base, flags), Sign(negative, flags))
  {
    hide Reverse, Zeros, HashPart, Sign, Stack, Cut;
    PrefixWithin(|digits|, base, prec, w, flags);
  }

  /** Digits, zeros, prefix and sign with nothing cut off, read backwards. */
  lemma Stacked(digits: seq<char>, n: nat, m: nat, k: nat, prefix: seq<char>, sign: seq<char>)
    requires m <= n && k == |digits| + m && k + |prefix| + |sign| <= BUFFER && |sign| <= 1
    ensures Reverse(Stack(digits, n, k, prefix, sign)) == sign + prefix + (Zeros(m) + Reverse(digits))
  {
    hide Reverse, Zeros, Stack;
    StackUncut(digits, n, m, k, prefix, sign);
    ReverseThree(digits + Zeros(m), prefix, sign);
    ReverseZeros(digits, m);
  }

  lemma StackUncut(digits: seq<char>, n: nat, m: nat, k: nat, prefix: seq<char>, sign: seq<char>)
    requires m <= n && k == |digits| + m && k + |prefix| + |sign| <= BUFFER
    ensures Stack(digits, n, k, prefix, sign) == digits + Zeros(m) + Reverse(prefix) + sign
  {
    hide Reverse, Zeros;
    FewerZeros(digits, n, m);
  }

  lemma PrefixWithin(len: nat, base: nat, prec: nat, w: nat, flags: Flags)
    requires len <= BUFFER
    ensures var z := ZerosTo(len, prec, w, flags); len <= z <= BUFFER && PrefixAt(z, base, prec, w, flags) <= z
    ensures flags.left ==> ZerosTo(len, prec, w, flags) == len
  {}

  lemma HashLength(base: nat, flags: Flags)
    ensures |HashPart(base, flags)| <= 2
  {}

  lemma SignLength(negative: bool, flags: Flags)
    ensures |Sign(negative, flags)| <= 1
  {}

  lemma FewerZeros(s: seq<char>, n: nat, m: nat)
    requires m <= n
    ensures (s + Zeros(n))[..|s| + m] == s + Zeros(m)
  {
    forall i | 0 <= i < m ensures Zeros(n)[i] == Zeros(m)[i] {
      ZeroAt(n, i);
      ZeroAt(m, i);
    }
  }

  lemma {:induction false} ZeroAt(n: nat, i: nat)
    requires i < n
    ensures Zeros(n)[i] == '0'
  {
    if i < n - 1 { ZeroAt(n - 1, i); }
  }

  lemma ReverseZeros(s: seq<char>, n: nat)
    ensures Reverse(s + Zeros(n)) == Zeros(n) + Reverse(s)
  {
    var a, b := Reverse(s + Zeros(n)), Zeros(n) + Reverse(s);
    forall i | 0 <= i < |a| ensures a[i] == b[i] {
      assert a[i] == (s + Zeros(n))[|s| + n - 1 - i];
      if i < n {
        ZeroAt(n, n - 1 - i);
        ZeroAt(n, i);
      }
    }
  }

  lemma FillShorter(s: seq<char>, t: seq<char>, w: nat, flags: Flags)
    requires |s| < |t| && ((flags.zeropad && !flags.left) || w < |t|)
    ensures Fill(s, w, flags) != Fill(t, w, flags)
  {
    assert |Fill(s, w, flags)| < |Fill(t, w, flags)|;
  }

  /** The values the digit loop goes through: each is the quotient of the one before, the last is 0, and the
      digits are their remainders. */
  ghost predicate Trace(vals: seq<nat>, digits: seq<char>, base: nat, upper: bool)
    requires 2 <= base <= 16
  {
    && |vals| == |digits| + 1 && vals[|digits|] == 0
    && (forall i {:trigger TraceAt(vals, digits, base, upper, i)} | 0 <= i < |digits| :: TraceAt(vals, digits, base, upper, i))
    && (forall i | 0 < i < |digits| :: vals[i] != 0)
  }

  ghost predicate TraceAt(vals: seq<nat>, digits: seq<char>, base: nat, upper: bool, i: nat)
    requires 2 <= base <= 16 && i < |digits| && i + 1 < |vals|
  {
    vals[i + 1] == vals[i] / base && vals[i] % base < 16 && digits[i] == DigitChar(vals[i] % base, upper)
  }

  lemma {:induction false} DigitsTrace(v: nat, base: nat, upper: bool) returns (vals: seq<nat>)
    requires 2 <= base <= 16
    ensures Trace(vals, Digits(v, base, upper), base, upper) && vals[0] == v
    decreases v
  {
    var s := Digits(v, base, upper);
    DigitsUnroll(v, base, upper);
    DivShrinks(v, base);
    var q := v / base;
    if v < base {
      vals := [v, 0];
      assert TraceAt(vals, s, base, upper, 0);
    } else {
      var t := Digits(q, base, upper);
      var rest := DigitsTrace(q, base, upper);
      vals := [v] + rest;
      assert s[1..] == t;
      forall i | 0 <= i < |s| ensures TraceAt(vals, s, base, upper, i) {
        assert i > 0 ==> TraceAt(rest, t, base, upper, i - 1);
        assert i > 0 ==> vals[i] == rest[i - 1] && vals[i + 1] == rest[i] && s[i] == t[i - 1];
      }
    }
  }

  /** The digit loop of `_ntoa_long`, cut off by the end of the buffer. */
  method WriteDigits(buf: array<char>, value0: nat, base: nat, upper: bool, ghost digits: seq<char>, ghost vals: seq<nat>) returns (len: nat)
    requires buf.Length == BUFFER && 2 <= base <= 16 && digits != [] && Trace(vals, digits, base, upper) && vals[0] == value0
    modifies buf
    ensures len == if |digits| <= BUFFER then |digits| else BUFFER
    ensures buf[..len] == digits[..len]
  {
    len := 0;
    var value: nat := value0;
    var more := true;
    while more
      invariant len <= BUFFER && len <= |digits| && (more ==> len < BUFFER && len < |digits|)
      invariant value == vals[len] && buf[..len] == digits[..len]
      invariant !more ==> len == |digits| || len == BUFFER
      decreases BUFFER - len, more
    {
      assert TraceAt(vals, digits, base, upper, len);
      buf[len] := DigitChar(value % base, upper);
      value := value / base;
      len := len + 1;
      more := value != 0 && len < BUFFER;
    }
  }

  /** `_ntoa_long`: what it prints for any value, base, precision, width and flags. */
  method NtoaLong(value: nat, negative: bool, base: nat, prec: nat, width: nat, flags0: Flags) returns (text: seq<char>)
    requires value < WORD && 2 <= base <= 16
    ensures var flags := if value == 0 then flags0.(hash := false) else flags0;
      text == Shown(if flags.precision && value == 0 then [] else FirstDigits(value, base, flags.upper), negative, base, prec, width, flags)
  {
    hide Shown, Digits;
    var buf := new char[BUFFER];
    var len := 0;
    var flags := if value == 0 then flags0.(hash := false) else flags0;
    ghost var digits := Digits(value, base, flags.upper);
    ghost var vals := DigitsTrace(value, base, flags.upper);
    if !flags.precision || value != 0 { len := WriteDigits(buf, value, base, flags.upper, digits, vals); }
    assert buf[..len] == if flags.precision && value == 0 then [] else FirstDigits(value, base, flags.upper);
    text := NtoaFormat(buf, len, negative, base, prec, width, flags);
  }

  /** As many of the low digits as the buffer holds. */
  function FirstDigits(v: nat, base: nat, upper: bool): (s: seq<char>)
    requires 2 <= base <= 16
    ensures |s| <= BUFFER
  {
    var s := Digits(v, base, upper);
    if |s| <= BUFFER then s else s[..BUFFER]
  }

  /** Without precision and width: sign, prefix, and the number in the base. */
  lemma ShownPlain(v: nat, negative: bool, base: nat, flags: Flags)
    requires v < WORD && base in {8, 10, 16} && !flags.precision
    ensures Shown(FirstDigits(v, base, flags.upper), negative, base, 0, 0, flags)
            == Sign(negative, flags) + HashPart(base, flags) + Text(v, base, flags.upper)
  {
    hide Buffered, Digits, Reverse, HashPart, Sign, Fill;
    DigitsFitBuffer(v, base, flags.upper);
    var digits := Digits(v, base, flags.upper);
    HashLength(base, flags);
    SignLength(negative, flags);
    BufferedWhole(digits, negative, base, 0, 0, flags);
    var s := Sign(negative, flags) + HashPart(base, flags);
    assert Zeros(0) + Reverse(digits) == Reverse(digits);
    NotFilled(s + Reverse(digits), flags);
  }

  lemma NotFilled(s: seq<char>, flags: Flags)
    ensures Fill(s, 0, flags) == s
  {}

  // ----- the parser

  datatype Opt = None | Some(v: nat)

  function DigitValue(c: char, base: nat): int {
    if '0' <= c <= '9' then (c - '0') as int
    else if base == 16 && 'a' <= c <= 'f' then (c - 'a') as int + 10
    else if base == 16 && 'A' <= c <= 'F' then (c - 'A') as int + 10
    else -1
  }

  /** Digits up to the end or a space, accumulated in 64 bits. */
  function ParseDigits(s: seq<char>, base: nat, acc: nat): Opt {
    if s == [] || s[0] == ' ' then Some(acc)
    else
      var d := DigitValue(s[0], base);
      if d < 0 then None else ParseDigits(s[1..], base, (acc * base + d) % WORD)
  }

  predicate HexPrefixed(s: seq<char>) {
    |s| >= 2 && s[0] == '0' && (s[1] == 'x' || s[1] == 'X')
  }

  function Parsed(s: seq<char>): Opt {
    var (t, base) := if HexPrefixed(s) then (s[2..], 16) else (s, 10);
    if t == [] then None else ParseDigits(t, base, 0)
  }

  /** `parse_num` of the text up to its terminating NUL. */
  method ParseNum(s0: seq<char>) returns (r: Opt)
    ensures r == Parsed(s0)
  {
    var s, base, v: nat := s0, 10, 0;
    if HexPrefixed(s) {
      base := 16;
      s := s[2..];
    }
    if s == [] { return None; }
    while s != [] && s[0] != ' '
      invariant ParseDigits(s, base, v) == Parsed(s0) && (base == 10 || base == 16)
      decreases |s|
    {
      var digit := DigitValue(s[0], base);
      if digit < 0 { return None; }
      v := (v * base + digit) % WORD;
      s := s[1..];
    }
    return Some(v);
  }

  /** The character is no digit of the base. */
  predicate IsBad(c: char, base: nat) {
    !('0' <= c <= '9') && !(base == 16 && ('a' <= c <= 'f' || 'A' <= c <= 'F'))
  }

  /** Character i is a bad digit, and no space comes before it. */
  ghost predicate BadAt(s: seq<char>, base: nat, i: nat) {
    i < |s| && IsBad(s[i], base) && forall j | 0 <= j <= i :: s[j] != ' '
  }

  lemma BadShift(s: seq<char>, base: nat, i: nat)
    requires s != [] && s[0] != ' '
    ensures BadAt(s, base, i + 1) <==> BadAt(s[1..], base, i)
  {
    if BadAt(s[1..], base, i) {
      forall j | 0 <= j <= i + 1 ensures s[j] != ' ' { if j > 0 { assert s[1..][j - 1] == s[j]; } }
    }
    if BadAt(s, base, i + 1) {
      forall j | 0 <= j <= i ensures s[1..][j] != ' ' { assert s[1..][j] == s[j + 1]; }
    }
  }

  lemma {:induction false} DigitsRefused(s: seq<char>, base: nat, acc: nat)
    requires base == 10 || base == 16
    ensures ParseDigits(s, base, acc) == None <==> exists i: nat :: BadAt(s, base, i)
    decreases |s|
  {
    if s != [] && s[0] != ' ' {
      var d := DigitValue(s[0], base);
      if d >= 0 {
        DigitsRefused(s[1..], base, (acc * base + d) % WORD);
        if i: nat :| BadAt(s[1..], base, i) { BadShift(s, base, i); }
        if i: nat :| BadAt(s, base, i) { BadShift(s, base, i - 1); }
      } else {
        assert BadAt(s, base, 0);
      }
    }
  }

  /** A text is refused exactly when it is empty, nothing but the prefix, or has a bad digit before the first
      space; the prefix is 0x or 0X. */
  lemma ParsedRefuses(s: seq<char>)
    ensures var hex := |s| >= 2 && s[0] == '0' && s[1] in {'x', 'X'};
      var (t, base) := if hex then (s[2..], 16) else (s, 10);
      Parsed(s) == None <==> t == [] || exists i: nat :: BadAt(t, base, i)
  {
    var (t, base) := if HexPrefixed(s) then (s[2..], 16) else (s, 10);
    DigitsRefused(t, base, 0);
  }

  // ----- round trips

  lemma DigitValueOf(d: nat, base: nat, upper: bool)
    requires d < base && (base == 10 || base == 16)
    ensures DigitValue(DigitChar(d, upper), base) == d && DigitChar(d, upper) != ' '
  {}

  lemma Distribute(a: int, w: int, b: int, c: int)
    ensures (a * w + b) * c == (a * c) * w + b * c
  {}

  lemma Collect(a: int, b: int, w: int)
    ensures a * w + b * w == (a + b) * w
  {}

  lemma WrapDigit(v: nat, base: nat)
    requires base > 0
    ensures ((v / base % WORD) * base + v % base) % WORD == v % WORD
  {
    var q := v / base;
    WrapSum(v, base, q, v % base, q / WORD, q % WORD);
  }

  lemma WrapSum(v: int, base: int, q: int, r: int, a: int, b: int)
    requires v == q * base + r && q == a * WORD + b
    ensures (b * base + r) % WORD == v % WORD
  {
    var x := b * base + r;
    Distribute(a, WORD, b, base);
    var k := a * base;
    assert v == k * WORD + x;
    Collect(k, x / WORD, WORD);
    DivModUnique(v, WORD, k + x / WORD, x % WORD);
  }

  /** Parsing the digits of v leaves v modulo 2^64, ready for what follows them. */
  lemma {:induction false} ParseOfText(v: nat, base: nat, upper: bool, rest: seq<char>)
    requires base == 10 || base == 16
    ensures ParseDigits(Text(v, base, upper) + rest, base, 0) == ParseDigits(rest, base, v % WORD)
    decreases v
  {
    hide Digits, Text, Reverse, DigitValue, DigitChar;
    TextUnroll(v, base, upper);
    DivShrinks(v, base);
    var d := v % base;
    var s := [DigitChar(d, upper)] + rest;
    DigitValueOf(d, base, upper);
    assert s[1..] == rest;
    if v < base {
      assert Text(v, base, upper) + rest == s;
    } else {
      var q := v / base;
      assert Text(v, base, upper) + rest == Text(q, base, upper) + s;
      ParseOfText(q, base, upper, s);
      WrapDigit(v, base);
    }
  }

  /** The leading digit is zero for 0 only. */
  lemma {:induction false} LeadingDigit(v: nat, base: nat, upper: bool)
    requires 2 <= base <= 16
    ensures |Text(v, base, upper)| > 0 && (v > 0 ==> Text(v, base, upper)[0] != '0')
    decreases v
  {
    TextUnroll(v, base, upper);
    DivShrinks(v, base);
    var q := v / base;
    if v >= base { LeadingDigit(q, base, upper); }
  }

  /** Parsing the text printed for a value gives it back, whatever follows after a space; a longer number
      gives its low 64 bits. */
  lemma ParseDecimal(v: nat, upper: bool, rest: seq<char>)
    requires rest == [] || rest[0] == ' '
    ensures Parsed(Text(v, 10, upper) + rest) == Some(v % WORD)
  {
    ParseOfText(v, 10, upper, rest);
    LeadingDigit(v, 10, upper);
    if v == 0 { TextUnroll(v, 10, upper); }
  }

  lemma ParseHex(v: nat, upper: bool, rest: seq<char>)
    requires rest == [] || rest[0] == ' '
    ensures Parsed(Prefix(16, upper) + Text(v, 16, upper) + rest) == Some(v % WORD)
  {
    ParseOfText(v, 16, upper, rest);
    LeadingDigit(v, 16, upper);
    var s := Prefix(16, upper) + Text(v, 16, upper) + rest;
    assert s[2..] == Text(v, 16, upper) + rest;
  }

  /** Printing with %lu and parsing: every 64-bit value survives ... */
  method DecimalSurvives(v: nat) returns (r: Opt)
    requires v < WORD
    ensures r == Some(v)
  {
    hide Shown, FirstDigits, Text, Parsed;
    var text := NtoaLong(v, false, 10, 0, 0, Flags(false, false, false, false, false, false, false));
    ShownPlain(v, false, 10, Flags(false, false, false, false, false, false, false));
    DecimalText(v, text);
    r := ParseNum(text);
  }

  lemma DecimalText(v: nat, text: seq<char>)
    requires v < WORD && text == "" + [] + Text(v, 10, false)
    ensures Parsed(text) == Some(v)
  {
    ParseDecimal(v, false, []);
    assert text == Text(v, 10, false) + [];
  }

  /** ... and so it does with %#lx and %#lX, where 0 has no prefix. */
  method HexSurvives(v: nat, upper: bool) returns (r: Opt)
    requires v < WORD
    ensures r == Some(v)
  {
    hide Shown, FirstDigits, Text, Parsed;
    var text := NtoaLong(v, false, 16, 0, 0, Flags(false, false, false, false, true, upper, false));
    ShownPlain(v, false, 16, Flags(false, false, false, false, v != 0, upper, false));
    HexText(v, upper, text);
    r := ParseNum(text);
  }

  lemma HexText(v: nat, upper: bool, text: seq<char>)
    requires v < WORD && text == "" + (if v != 0 then Prefix(16, upper) else []) + Text(v, 16, upper)
    ensures Parsed(text) == Some(v)
  {
    if v != 0 {
      assert text == Prefix(16, upper) + Text(v, 16, upper) + [];
      ParseHex(v, upper, []);
    } else {
      ZeroText(upper);
      assert text == Text(0, 10, upper) + [];
      ParseDecimal(0, upper, []);
    }
  }

  lemma ZeroText(upper: bool)
    ensures Text(0, 16, upper) == Text(0, 10, upper)
  {
    TextUnroll(0, 16, upper);
    TextUnroll(0, 10, upper);
  }
}
