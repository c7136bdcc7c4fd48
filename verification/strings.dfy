/** The JavaScript string operations the authentication controller relies on:
    integer `toString`, `padStart`, `trim`, `toLowerCase`, the `^\d{3}$` code
    format test and `split(" ")[1]` on the authorization header. */
module Strings {
  import opened Optional

  predicate IsDigit(c: char) {
    '0' <= c <= '9'
  }

  predicate AllDigits(s: string) {
    forall i :: 0 <= i < |s| ==> IsDigit(s[i])
  }

  function DigitChar(d: nat): (c: char)
    requires d < 10
    ensures IsDigit(c) && c as int - '0' as int == d
  {
    ('0' as int + d) as char
  }

  function DigitValue(c: char): (d: nat)
    requires IsDigit(c)
    ensures d < 10 && DigitChar(d) == c
  {
    c as int - '0' as int
  }

  /** Decimal rendering of a natural number, as `Number.prototype.toString`
      writes an integer: no sign, no leading zero. */
  function NatToDecimal(n: nat): (s: string)
    ensures 1 <= |s| && AllDigits(s)
    ensures s[0] == '0' <==> n == 0
    ensures n < 10 ==> |s| == 1
    ensures n < 100 ==> |s| <= 2
    ensures n < 1000 ==> |s| <= 3
    decreases n
  {
    if n < 10 then [DigitChar(n)] else NatToDecimal(n / 10) + [DigitChar(n % 10)]
  }

  /** Decimal rendering of any integer (a leading '-' for negatives). */
  function IntToDecimal(n: int): (s: string)
    ensures |s| >= 1
  {
    if n < 0 then "-" + NatToDecimal(-n) else NatToDecimal(n)
  }

  /** The value a string of decimal digits denotes; leading zeros add nothing. */
  function DecimalValue(s: string): nat
    requires AllDigits(s)
  {
    if s == [] then 0 else 10 * DecimalValue(s[..|s| - 1]) + DigitValue(s[|s| - 1])
  }

  lemma {:induction false} DecimalRoundTrip(n: nat)
    ensures DecimalValue(NatToDecimal(n)) == n
    decreases n
  {
    var s := NatToDecimal(n);
    if n >= 10 {
      assert s[..|s| - 1] == NatToDecimal(n / 10);
      DecimalRoundTrip(n / 10);
    }
  }

  /** Distinct numbers render to distinct strings, so keys built from user ids never collide. */
  lemma NatToDecimalInjective(m: nat, n: nat)
    ensures NatToDecimal(m) == NatToDecimal(n) ==> m == n
  {
    DecimalRoundTrip(m);
    DecimalRoundTrip(n);
  }

  function Repeat(c: char, k: nat): (r: string)
    ensures |r| == k && forall i :: 0 <= i < k ==> r[i] == c
  {
    if k == 0 then [] else [c] + Repeat(c, k - 1)
  }

  /** `s.padStart(width, fill)` for a one-character fill string. */
  function PadStart(s: string, width: nat, fill: char): (r: string)
  {
    if |s| >= width then s else Repeat(fill, width - |s|) + s
  }

  lemma {:induction false} ZerosDenoteZero(k: nat)
    ensures AllDigits(Repeat('0', k)) && DecimalValue(Repeat('0', k)) == 0
    decreases k
  {
    if k > 0 {
      var z := Repeat('0', k);
      assert z[..k - 1] == Repeat('0', k - 1);
      ZerosDenoteZero(k - 1);
    }
  }

  /** Left-padding a digit string with zeros does not change the number it denotes. */
  lemma {:induction false} LeadingZerosIgnored(k: nat, s: string)
    requires AllDigits(s)
    ensures AllDigits(Repeat('0', k) + s)
    ensures DecimalValue(Repeat('0', k) + s) == DecimalValue(s)
    decreases |s|
  {
    var z := Repeat('0', k);
    if s == [] {
      assert z + s == z;
      ZerosDenoteZero(k);
    } else {
      var t := z + s;
      assert t[..|t| - 1] == z + s[..|s| - 1];
      LeadingZerosIgnored(k, s[..|s| - 1]);
    }
  }

  /** The characters `String.prototype.trim` removes: ECMAScript WhiteSpace
      (tab, vertical tab, form feed, space, no-break space, byte-order mark and
      the Zs category) and LineTerminator (LF, CR, U+2028, U+2029). */
  predicate IsJsWhitespace(c: char) {
    var u := c as int;
    || u == 0x09 || u == 0x0A || u == 0x0B || u == 0x0C || u == 0x0D
    || u == 0x20 || u == 0xA0 || u == 0x1680 || (0x2000 <= u <= 0x200A)
    || u == 0x2028 || u == 0x2029 || u == 0x202F || u == 0x205F
    || u == 0x3000 || u == 0xFEFF
  }

  function TrimStart(s: string): string {
    if s != [] && IsJsWhitespace(s[0]) then TrimStart(s[1..]) else s
  }

  function TrimEnd(s: string): string {
    if s != [] && IsJsWhitespace(s[|s| - 1]) then TrimEnd(s[..|s| - 1]) else s
  }

  /** `String.prototype.trim`. */
  function Trim(s: string): string {
    TrimEnd(TrimStart(s))
  }

  /** TrimStart drops exactly the leading whitespace. */
  lemma {:induction false} TrimStartStrips(s: string)
    ensures var r := TrimStart(s);
      && |r| <= |s| && r == s[|s| - |r|..]
      && (forall i :: 0 <= i < |s| - |r| ==> IsJsWhitespace(s[i]))
      && (r == [] || !IsJsWhitespace(r[0]))
    decreases |s|
  {
    if s != [] && IsJsWhitespace(s[0]) {
      TrimStartStrips(s[1..]);
      var r := TrimStart(s);
      assert r == s[1..][|s| - 1 - |r|..];
      forall i | 0 <= i < |s| - |r|
        ensures IsJsWhitespace(s[i])
      {
        if i > 0 {
          assert s[i] == s[1..][i - 1];
        }
      }
    }
  }

  /** TrimEnd drops exactly the trailing whitespace. */
  lemma {:induction false} TrimEndStrips(s: string)
    ensures var r := TrimEnd(s);
      && |r| <= |s| && r == s[..|r|]
      && (forall i :: |r| <= i < |s| ==> IsJsWhitespace(s[i]))
      && (r == [] || !IsJsWhitespace(r[|r| - 1]))
    decreases |s|
  {
    if s != [] && IsJsWhitespace(s[|s| - 1]) {
      TrimEndStrips(s[..|s| - 1]);
      var r := TrimEnd(s);
      assert r == s[..|s| - 1][..|r|];
      forall i | |r| <= i < |s|
        ensures IsJsWhitespace(s[i])
      {
        if i < |s| - 1 {
          assert s[i] == s[..|s| - 1][i];
        }
      }
    }
  }

  /** `r` is `s` with exactly its first `a` characters and its last
      `|s| - a - |r|` characters removed, all of them whitespace. */
  predicate StripsWhitespace(s: string, r: string, a: int) {
    && 0 <= a <= |s| - |r| && r == s[a..a + |r|]
    && (forall i :: 0 <= i < a ==> IsJsWhitespace(s[i]))
    && (forall i :: a + |r| <= i < |s| ==> IsJsWhitespace(s[i]))
  }

  /** Trim removes whitespace from both ends and nothing else: what is left is
      a slice of the input with no whitespace at either end. */
  lemma TrimStrips(s: string)
    ensures exists a :: StripsWhitespace(s, Trim(s), a)
    ensures Trim(s) == [] || (!IsJsWhitespace(Trim(s)[0]) && !IsJsWhitespace(Trim(s)[|Trim(s)| - 1]))
  {
    var t := TrimStart(s);
    var r := TrimEnd(t);
    TrimStartStrips(s);
    TrimEndStrips(t);
    StripsBothEnds(s, t, r);
    assert Trim(s) == r;
    assert StripsWhitespace(s, Trim(s), |s| - |t|);
    if r != [] {
      assert r[0] == t[0];
    }
  }

  /** Removing a whitespace prefix and then a whitespace suffix leaves a
      slice of the original with only whitespace around it. */
  lemma StripsBothEnds(s: string, t: string, r: string)
    requires |t| <= |s| && t == s[|s| - |t|..]
    requires |r| <= |t| && r == t[..|r|]
    requires forall i :: |r| <= i < |t| ==> IsJsWhitespace(t[i])
    ensures r == s[|s| - |t|..|s| - |t| + |r|]
    ensures forall i :: |s| - |t| + |r| <= i < |s| ==> IsJsWhitespace(s[i])
  {
    var a := |s| - |t|;
    forall i | a + |r| <= i < |s|
      ensures IsJsWhitespace(s[i])
    {
      assert s[i] == t[i - a];
    }
  }

  /** A string whose ends are not whitespace trims to itself. */
  lemma TrimKeeps(s: string)
    requires s == [] || (!IsJsWhitespace(s[0]) && !IsJsWhitespace(s[|s| - 1]))
    ensures Trim(s) == s
  {
  }

  /** Trimming twice is trimming once. */
  lemma TrimIdempotent(s: string)
    ensures Trim(Trim(s)) == Trim(s)
  {
    TrimStrips(s);
    TrimKeeps(Trim(s));
  }

  /** A digit string is its own trim. */
  lemma DigitsTrimToThemselves(s: string)
    requires AllDigits(s)
    ensures Trim(s) == s
  {
    if s != [] {
      assert IsDigit(s[0]) && IsDigit(s[|s| - 1]);
    }
    TrimKeeps(s);
  }

  /** The test `/^\d{3}$/`: `\d` is the ASCII digit class and `$` (without the
      multiline flag) anchors at the very end of the input. */
  predicate IsCodeFormat(s: string) {
    |s| == 3 && AllDigits(s)
  }

  /** A number below 1000 rendered and zero-padded to width 3 is a
      three-digit string that still denotes the number. */
  lemma PaddedDecimal(n: nat)
    requires n < 1000
    ensures IsCodeFormat(PadStart(NatToDecimal(n), 3, '0'))
    ensures DecimalValue(PadStart(NatToDecimal(n), 3, '0')) == n
  {
    var d := NatToDecimal(n);
    assert PadStart(d, 3, '0') == Repeat('0', 3 - |d|) + d;
    LeadingZerosIgnored(3 - |d|, d);
    DecimalRoundTrip(n);
  }

  /** `s.padStart(width, fill)` is `s` when it is wide enough, and otherwise
      `fill` repeated in front of it up to `width` characters. */
  lemma PadStartShape(s: string, width: nat, fill: char)
    ensures var r := PadStart(s, width, fill);
      && |r| == (if |s| >= width then |s| else width)
      && (forall i :: 0 <= i < |r| - |s| ==> r[i] == fill)
      && r[|r| - |s|..] == s
  {
  }

  /** A digit string of at most three digits denotes less than 10^length. */
  lemma {:induction false} ShortDigitsBelow(s: string)
    requires AllDigits(s) && |s| <= 3
    ensures DecimalValue(s) < (if |s| == 0 then 1 else if |s| == 1 then 10 else if |s| == 2 then 100 else 1000)
    decreases |s|
  {
    if s != [] {
      ShortDigitsBelow(s[..|s| - 1]);
    }
  }

  /** Two digit strings of one length that denote the same number are equal. */
  lemma {:induction false} DigitsDetermined(a: string, b: string)
    requires AllDigits(a) && AllDigits(b) && |a| == |b|
    requires DecimalValue(a) == DecimalValue(b)
    ensures a == b
    decreases |a|
  {
    if a != [] {
      var k := |a| - 1;
      var da, db := DigitValue(a[k]), DigitValue(b[k]);
      var va, vb := DecimalValue(a[..k]), DecimalValue(b[..k]);
      assert 10 * va + da == 10 * vb + db;
      assert va == vb && da == db;
      assert a[k] == DigitChar(da) == b[k];
      DigitsDetermined(a[..k], b[..k]);
      assert a == a[..k] + [a[k]];
      assert b == b[..k] + [b[k]];
    }
  }

  /** The code format accepts exactly the zero-padded renderings of 0..999. */
  lemma CodeFormatIsPaddedNumber(s: string)
    ensures IsCodeFormat(s) <==> exists n :: 0 <= n < 1000 && s == PadStart(NatToDecimal(n), 3, '0')
  {
    if IsCodeFormat(s) {
      var n := DecimalValue(s);
      ShortDigitsBelow(s);
      PaddedDecimal(n);
      DigitsDetermined(PadStart(NatToDecimal(n), 3, '0'), s);
    }
    if exists n :: 0 <= n < 1000 && s == PadStart(NatToDecimal(n), 3, '0') {
      var n :| 0 <= n < 1000 && s == PadStart(NatToDecimal(n), 3, '0');
      PaddedDecimal(n);
    }
  }

  /** Digits as Redis writes an integer: no leading zero unless the number is 0. */
  predicate CanonicalDigits(s: string) {
    |s| >= 1 && AllDigits(s) && (s[0] == '0' ==> |s| == 1)
  }

  /** The range of a Redis integer: a signed 64-bit value. */
  const MinRedisInteger := -0x8000_0000_0000_0000
  const MaxRedisInteger := 0x7FFF_FFFF_FFFF_FFFF

  predicate InRedisRange(n: int) {
    MinRedisInteger <= n <= MaxRedisInteger
  }

  /** The integer INCR finds in a stored string: canonical decimal digits,
      with '-' in front for a negative number, within the signed 64-bit
      range; no '+', no spaces, no "-0". None is the "not an integer or out
      of range" error. */
  function RedisInteger(s: string): Option<int> {
    var v: int :=
      if |s| >= 2 && s[0] == '-' && s[1] != '0' && CanonicalDigits(s[1..]) then -(DecimalValue(s[1..]) as int)
      else if CanonicalDigits(s) then DecimalValue(s)
      else MaxRedisInteger + 1;
    if InRedisRange(v) then Some(v) else None
  }

  /** `Number(s)` on the strings it reads as an integer: decimal digits with
      an optional sign, between whitespace; whitespace alone reads as 0.
      None stands for NaN. */
  function NumberValue(s: string): Option<int> {
    var t := Trim(s);
    if t == [] then Some(0)
    else if |t| >= 2 && (t[0] == '-' || t[0] == '+') && AllDigits(t[1..]) then
      Some(if t[0] == '-' then -(DecimalValue(t[1..]) as int) else DecimalValue(t[1..]))
    else if AllDigits(t) then Some(DecimalValue(t))
    else None
  }

  lemma {:induction false} LeadingNonzero(s: string)
    requires |s| >= 1 && AllDigits(s) && s[0] != '0'
    ensures DecimalValue(s) >= 1
    decreases |s|
  {
    if |s| > 1 {
      LeadingNonzero(s[..|s| - 1]);
    }
  }

  /** Canonical digits are the rendering of the number they denote. */
  lemma {:induction false} CanonicalIsRendering(s: string)
    requires CanonicalDigits(s)
    ensures s == NatToDecimal(DecimalValue(s))
    decreases |s|
  {
    var k := |s| - 1;
    if k > 0 {
      var p := s[..k];
      LeadingNonzero(p);
      CanonicalIsRendering(p);
      var v := DecimalValue(s);
      assert v / 10 == DecimalValue(p) && v % 10 == DigitValue(s[k]);
      assert s == p + [s[k]];
    }
  }

  /** What a number renders to is read back as that number by `Number`, and
      by INCR when it lies in the 64-bit range (INCR refuses it otherwise). */
  lemma IntegerTextRoundTrip(n: int)
    ensures RedisInteger(IntToDecimal(n)) == (if InRedisRange(n) then Some(n) else None)
    ensures NumberValue(IntToDecimal(n)) == Some(n)
  {
    var m := if n < 0 then -n else n;
    var d := NatToDecimal(m);
    DecimalRoundTrip(m);
    if n < 0 {
      var s := "-" + d;
      assert s[1..] == d;
      assert s[|s| - 1] == d[|d| - 1] && IsDigit(d[|d| - 1]);
      TrimKeeps(s);
    } else {
      assert IsDigit(d[0]);
      DigitsTrimToThemselves(d);
    }
  }

  /** INCR accepts exactly the renderings of the integers in the 64-bit range. */
  lemma RedisIntegerIsCanonical(s: string, n: int)
    ensures RedisInteger(s) == Some(n) <==> s == IntToDecimal(n) && InRedisRange(n)
  {
    IntegerTextRoundTrip(n);
    if RedisInteger(s) == Some(n) {
      if |s| >= 2 && s[0] == '-' && s[1] != '0' && CanonicalDigits(s[1..]) {
        CanonicalIsRendering(s[1..]);
        LeadingNonzero(s[1..]);
        assert s == "-" + s[1..];
      } else {
        CanonicalIsRendering(s);
      }
    }
  }

  function LowerChar(c: char): char {
    if 'A' <= c <= 'Z' then (c as int + 32) as char else c
  }

  /** `String.prototype.toLowerCase` on the ASCII letters. */
  function ToLower(s: string): (r: string)
    ensures |r| == |s|
    ensures forall i :: 0 <= i < |s| ==> r[i] == LowerChar(s[i])
  {
    if s == [] then [] else [LowerChar(s[0])] + ToLower(s[1..])
  }

  function IndexOfSpace(s: string): (r: Option<nat>)
    ensures r.Some? ==> r.value < |s| && s[r.value] == ' '
    ensures forall j :: 0 <= j < |s| && (r.None? || j < r.value) ==> s[j] != ' '
  {
    if s == [] then None
    else if s[0] == ' ' then Some(0)
    else match IndexOfSpace(s[1..])
      case None => None
      case Some(i) => Some(i + 1)
  }

  /** `s.split(" ")[1]`: the text between the first and the second space (or
      the end); `undefined` (None) when there is no space at all. */
  function SecondField(s: string): (r: Option<string>)
    ensures r.None? <==> forall i :: 0 <= i < |s| ==> s[i] != ' '
    ensures r.Some? ==> forall i :: 0 <= i < |r.value| ==> r.value[i] != ' '
    ensures r.Some? ==>
      exists i :: 0 <= i < |s| && s[i] == ' ' && (forall j :: 0 <= j < i ==> s[j] != ' ') &&
        i + 1 + |r.value| <= |s| && r.value == s[i + 1..i + 1 + |r.value|] &&
        (i + 1 + |r.value| == |s| || s[i + 1 + |r.value|] == ' ')
  {
    match IndexOfSpace(s)
    case None => None
    case Some(i) =>
      var rest := s[i + 1..];
      match IndexOfSpace(rest)
      case None =>
        assert rest == s[i + 1..i + 1 + |rest|];
        Some(rest)
      case Some(j) =>
        assert rest[..j] == s[i + 1..i + 1 + j] && s[i + 1 + j] == rest[j];
        Some(rest[..j])
  }

  /** The field after a space-free scheme word and one space is the space-free token. */
  lemma {:induction false} SecondFieldOfBearer(scheme: string, token: string)
    requires forall i :: 0 <= i < |scheme| ==> scheme[i] != ' '
    requires forall i :: 0 <= i < |token| ==> token[i] != ' '
    ensures SecondField(scheme + " " + token) == Some(token)
  {
    var h := scheme + " " + token;
    assert h == scheme + (" " + token);
    SpaceFreePrefix(scheme, " " + token);
    assert h[|scheme| + 1..] == token;
    SpaceFreeHasNoIndex(token);
  }

  lemma {:induction false} SpaceFreePrefix(a: string, b: string)
    requires forall i :: 0 <= i < |a| ==> a[i] != ' '
    requires b != [] && b[0] == ' '
    ensures IndexOfSpace(a + b) == Some(|a|)
    decreases |a|
  {
    if a != [] {
      assert (a + b)[1..] == a[1..] + b;
      SpaceFreePrefix(a[1..], b);
    }
  }

  lemma {:induction false} SpaceFreeHasNoIndex(a: string)
    requires forall i :: 0 <= i < |a| ==> a[i] != ' '
    ensures IndexOfSpace(a) == None
    decreases |a|
  {
    if a != [] {
      SpaceFreeHasNoIndex(a[1..]);
    }
  }
}
