/**
 * utils/Tools.js: the little-endian integer encoder `intToBuff` and the id generator `uuidGen`.
 * The clock, the random source and base64 encoding are parameters.
 */
module Tools {
  import opened Dicts

  type byte = x: int | 0 <= x < 256

  /** A JavaScript value handed to `intToBuff`: a number, or a string that `parseInt` reads. */
  datatype JsValue = Number(n: int) | Text(s: string)

  // ---------------------------------------------------------------- little-endian bytes

  /** The bytes of `n`, least significant first, with no trailing zero byte. */
  function LeBytes(n: nat): seq<byte>
    decreases n
  {
    if n == 0 then [] else [n % 256] + LeBytes(n / 256)
  }

  /** The number that little-endian bytes stand for: the sum of `bs[i] * 256^i`. */
  function LeValue(bs: seq<byte>): nat {
    if bs == [] then 0 else bs[0] + 256 * LeValue(bs[1..])
  }

  /** Decoding the bytes of `n` gives back `n`. */
  lemma {:induction false} LeRoundTrip(n: nat)
    ensures LeValue(LeBytes(n)) == n
    decreases n
  {
    if n > 0 {
      LeRoundTrip(n / 256);
      assert LeBytes(n)[1..] == LeBytes(n / 256);
    }
  }

  /** The encoding is empty exactly for zero, and otherwise ends in a nonzero byte. */
  lemma {:induction false} LeBytesShape(n: nat)
    ensures LeBytes(n) == [] <==> n == 0
    ensures n > 0 ==> LeBytes(n)[|LeBytes(n)| - 1] != 0
    decreases n
  {
    if n > 0 {
      LeBytesShape(n / 256);
    }
  }

  /** Every byte sequence without a trailing zero is the encoding of its value. */
  lemma {:induction false} LeDecodeEncode(bs: seq<byte>)
    requires bs == [] || bs[|bs| - 1] != 0
    ensures LeBytes(LeValue(bs)) == bs
  {
    if bs != [] {
      var rest := bs[1..];
      assert rest == [] || rest[|rest| - 1] != 0;
      LeDecodeEncode(rest);
      var v := LeValue(bs);
      assert v == bs[0] + 256 * LeValue(rest);
      ByteDigit(bs[0], LeValue(rest));
      if rest == [] {
        assert v == bs[0] && bs[0] != 0;
      } else {
        LeBytesShape(LeValue(rest));
        assert LeValue(rest) > 0;
      }
      assert LeBytes(v) == [bs[0]] + LeBytes(LeValue(rest));
      assert bs == [bs[0]] + rest;
    }
  }

  /** The low byte and the rest of `d + 256 * q`. */
  lemma ByteDigit(d: byte, q: nat)
    ensures (d + 256 * q) % 256 == d && (d + 256 * q) / 256 == q
  {
  }

  // ---------------------------------------------------------------- parseInt and toString

  predicate IsDigit(c: char) {
    '0' <= c <= '9'
  }

  predicate AllDigits(s: string) {
    forall i | 0 <= i < |s| :: IsDigit(s[i])
  }

  function DigitChar(d: nat): char
    requires d < 10
  {
    ('0' as int + d) as char
  }

  /** The longest prefix of `s` made of decimal digits. */
  function LeadingDigits(s: string): (d: string)
    ensures |d| <= |s| && d == s[..|d|] && AllDigits(d)
  {
    if s == [] || !IsDigit(s[0]) then [] else [s[0]] + LeadingDigits(s[1..])
  }

  function DigitsValue(d: string): nat
    requires AllDigits(d)
  {
    if d == [] then 0 else 10 * DigitsValue(d[..|d| - 1]) + (d[|d| - 1] as int - '0' as int)
  }

  /** `parseInt(s)` for decimal text: the value of the leading digits, `None` standing for NaN. */
  function ParseInt(s: string): Option<nat> {
    var d := LeadingDigits(s);
    if d == [] then None else Some(DigitsValue(d))
  }

  function Pow10(k: nat): nat {
    if k == 0 then 1 else 10 * Pow10(k - 1)
  }

  /** `n.toString()` for a non-negative integer. */
  function DecimalString(n: nat): string
    decreases n
  {
    if n < 10 then [DigitChar(n)] else DecimalString(n / 10) + [DigitChar(n % 10)]
  }

  lemma {:induction false} DecimalStringDigits(n: nat)
    ensures AllDigits(DecimalString(n)) && |DecimalString(n)| > 0
    decreases n
  {
    if n >= 10 {
      DecimalStringDigits(n / 10);
    }
  }

  lemma {:induction false} LeadingDigitsOfDigits(s: string)
    requires AllDigits(s)
    ensures LeadingDigits(s) == s
  {
    if s != [] {
      LeadingDigitsOfDigits(s[1..]);
      assert s == [s[0]] + s[1..];
    }
  }

  /** Reading back the decimal text of `n` gives `n`. */
  lemma {:induction false} ParseDecimalString(n: nat)
    ensures ParseInt(DecimalString(n)) == Some(n)
  {
    DecimalStringDigits(n);
    LeadingDigitsOfDigits(DecimalString(n));
    DecimalValue(n);
  }

  lemma {:induction false} DecimalValue(n: nat)
    ensures AllDigits(DecimalString(n)) && DigitsValue(DecimalString(n)) == n
    decreases n
  {
    DecimalStringDigits(n);
    var d := DecimalString(n);
    if n >= 10 {
      DecimalValue(n / 10);
      assert d[..|d| - 1] == DecimalString(n / 10);
    }
  }

  lemma {:induction false} DigitsValueBound(d: string)
    requires AllDigits(d)
    ensures DigitsValue(d) < Pow10(|d|)
  {
    if d != [] {
      DigitsValueBound(d[..|d| - 1]);
    }
  }

  lemma ParseIntBound(s: string)
    ensures ParseInt(s).Some? ==> ParseInt(s).value < Pow10(|s|)
  {
    var d := LeadingDigits(s);
    DigitsValueBound(d);
    Pow10Monotonic(|d|, |s|);
  }

  lemma {:induction false} Pow10Monotonic(i: nat, j: nat)
    requires i <= j
    ensures Pow10(i) <= Pow10(j)
    decreases j
  {
    if i < j {
      Pow10Monotonic(i, j - 1);
    }
  }

  lemma {:induction false} DecimalStringLength(n: nat, k: nat)
    requires 0 < k && n < Pow10(k)
    ensures |DecimalString(n)| <= k
    decreases n
  {
    if n >= 10 {
      assert k > 1;
      DecimalStringLength(n / 10, k - 1);
    }
  }

  // ---------------------------------------------------------------- intToBuff

  /** The number `intToBuff` works on: numbers as they are, strings through `parseInt`. */
  function Coerce(v: JsValue): Option<int> {
    match v
    case Number(n) => Some(n)
    case Text(s) => match ParseInt(s) case None => None case Some(n) => Some(n)
  }

  /**
   * The values for which `&` and `>>=` on the 32-bit representation agree with
   * `% 256` and `/ 256`; outside this range the source's loop does not terminate
   * (negative numbers) or works on a wrapped value.
   */
  predicate InInt32Range(v: JsValue) {
    match Coerce(v)
    case None => true
    case Some(n) => 0 <= n < 0x8000_0000
  }

  /** What `intToBuff(v)` returns: NaN, like zero, gives no bytes. */
  function BuffOf(v: JsValue): seq<byte>
    requires InInt32Range(v)
  {
    match Coerce(v)
    case None => []
    case Some(n) => LeBytes(n)
  }

  method IntToBuff(v: JsValue) returns (nums: seq<byte>)
    requires InInt32Range(v)
    ensures nums == BuffOf(v)
    ensures Coerce(v).Some? ==> LeValue(nums) == Coerce(v).value
    ensures Coerce(v) == Some(0) ==> nums == []
  {
    var nr: nat := match Coerce(v) case None => 0 case Some(n) => n;
    ghost var n0 := nr;
    nums := [];
    while nr != 0
      invariant nums + LeBytes(nr) == LeBytes(n0)
      decreases nr
    {
      nums := nums + [nr % 256];   // nr & 0xFF
      nr := nr / 256;              // nr >>= 8
    }
    LeRoundTrip(n0);
  }

  // ---------------------------------------------------------------- uuidGen

  /** `s.split('.')[0]`. */
  function BeforeDot(s: string): (r: string)
    ensures |r| <= |s| && '.' !in r && r == s[..|r|]
    ensures |r| < |s| ==> s[|r|] == '.'
  {
    if s == [] || s[0] == '.' then []
    else
      var rest := BeforeDot(s[1..]);
      assert [s[0]] + rest == s[..|rest| + 1];
      [s[0]] + rest
  }

  /** The two halves `substr(0, 8)` and `substr(8)` of the integral part of the clock text. */
  function SplitTime(time: string): (parts: (string, string))
    ensures parts.0 + parts.1 == BeforeDot(time)
    ensures |parts.0| <= 8
  {
    var t := BeforeDot(time);
    var cut := if |t| < 8 then |t| else 8;
    assert t == t[..cut] + t[cut..];
    (t[..cut], t[cut..])
  }

  predicate IsBase64Special(c: char) {
    c == '=' || c == '/' || c == '+'
  }

  /** `s.replace(/=|\/|\+/g, '0')`. */
  function ReplaceSpecials(s: string): (r: string)
    ensures |r| == |s|
    ensures forall i | 0 <= i < |r| :: !IsBase64Special(r[i])
    ensures forall i | 0 <= i < |s| :: IsBase64Special(s[i]) ==> r[i] == '0'
    ensures forall i | 0 <= i < |s| :: !IsBase64Special(s[i]) ==> r[i] == s[i]
  {
    seq(|s|, i requires 0 <= i < |s| => if IsBase64Special(s[i]) then '0' else s[i])
  }

  /** Replacing twice is replacing once: an id already has no character to replace. */
  lemma ReplaceSpecialsIdempotent(s: string)
    ensures ReplaceSpecials(ReplaceSpecials(s)) == ReplaceSpecials(s)
  {
  }

  /** `Math.round(x)` for a non-negative real. */
  function Round(x: real): int
    requires x >= 0.0
  {
    (x + 0.5).Floor
  }

  const MaxSafeInteger: nat := 0x1F_FFFF_FFFF_FFFF

  /** The buffer `uuidGen` encodes: the random part, the two clock parts, then the first random byte again. */
  function UuidBytes(now: nat, random: real): seq<byte>
    requires now <= MaxSafeInteger && 0.0 <= random < 1.0
  {
    var (p1, p2) := SplitTime(DecimalString(now));
    var p3 := DecimalString(Round(random * 1000000.0));
    UuidPartsInRange(now, random);
    var b3 := BuffOf(Text(p3));
    b3 + BuffOf(Text(p2)) + BuffOf(Text(p1)) + [if b3 == [] then 0 else b3[0]]
  }

  lemma UuidPartsInRange(now: nat, random: real)
    requires now <= MaxSafeInteger && 0.0 <= random < 1.0
    ensures var (p1, p2) := SplitTime(DecimalString(now));
            InInt32Range(Text(p1)) && InInt32Range(Text(p2)) &&
            InInt32Range(Text(DecimalString(Round(random * 1000000.0))))
  {
    var (p1, p2) := SplitTime(DecimalString(now));
    assert Pow10(16) == 10000000000000000;
    DecimalStringLength(now, 16);
    ParseIntBound(p1);
    ParseIntBound(p2);
    Pow10Monotonic(|p1|, 8);
    Pow10Monotonic(|p2|, 8);
    assert Pow10(8) == 100000000;
    var p3 := Round(random * 1000000.0);
    ParseDecimalString(p3);
  }

  /**
   * `uuidGen()` with `Date.now()` as `now`, `Math.random()` as `random` and
   * `Buffer.toString('base64')` as `base64`.
   */
  method UuidGen(now: nat, random: real, base64: seq<byte> -> string) returns (id: string)
    requires now <= MaxSafeInteger && 0.0 <= random < 1.0
    ensures id == ReplaceSpecials(base64(UuidBytes(now, random)))
    ensures forall i | 0 <= i < |id| :: !IsBase64Special(id[i])
  {
    var time := DecimalString(now);
    var (p1, p2) := SplitTime(time);
    var p3 := DecimalString(Round(random * 1000000.0));
    UuidPartsInRange(now, random);
    var b3 := IntToBuff(Text(p3));
    var b2 := IntToBuff(Text(p2));
    var b1 := IntToBuff(Text(p1));
    var again := IntToBuff(Text(p3));
    var buffer := b3 + b2 + b1 + [if again == [] then 0 else again[0]];
    id := ReplaceSpecials(base64(buffer));
  }

  /** The random part leads the buffer, as the bytes of the rounded random number. */
  lemma UuidStartsWithRandomPart(now: nat, random: real)
    requires now <= MaxSafeInteger && 0.0 <= random < 1.0
    ensures var p3 := Round(random * 1000000.0);
            p3 >= 0 && LeBytes(p3) <= UuidBytes(now, random)
  {
    var p3 := Round(random * 1000000.0);
    ParseDecimalString(p3);
  }
}
