/**
 * The fragments of PHP's value semantics that the artifact builder relies
 * on: parsed configuration values, array key normalisation (a decimal
 * integer string used as a key becomes an integer key), `isset`/`??`,
 * `empty()` on strings, `trim()`, and the coercion a `string` return type
 * applies in PHP's default (coercive) typing mode.
 */
module Php {
  import opened Outcomes

  datatype ArrayKey = IntKey(i: int) | StrKey(s: string)

  /** A value as the YAML parser hands it over; floats and dates are not modelled. */
  datatype Value =
    | Null
    | Bool(b: bool)
    | Int(i: int)
    | Str(s: string)
    | Arr(entries: seq<(ArrayKey, Value)>)

  /** An ordered PHP array; its keys are distinct, as in PHP. */
  type PhpArray = seq<(ArrayKey, Value)>

  const IntMax: int := 0x7fff_ffff_ffff_ffff
  const IntMin: int := -0x8000_0000_0000_0000

  // ---------------------------------------------------------------------
  // Decimal integers

  predicate IsDigit(c: char) { '0' <= c <= '9' }

  predicate AllDigits(s: string) { forall i :: 0 <= i < |s| ==> IsDigit(s[i]) }

  function DigitChar(d: nat): (c: char)
    requires d < 10
    ensures IsDigit(c) && (c as int) - ('0' as int) == d
  {
    (('0' as int) + d) as char
  }

  function DecimalValue(s: string): nat
    requires AllDigits(s)
  {
    if s == [] then 0 else DecimalValue(s[..|s| - 1]) * 10 + ((s[|s| - 1] as int) - ('0' as int))
  }

  /** A non-empty digit string without a superfluous leading zero. */
  predicate CanonicalNatural(s: string) {
    |s| > 0 && AllDigits(s) && (s[0] == '0' ==> |s| == 1)
  }

  function NatToDecimal(n: nat): (s: string)
    decreases n
  {
    if n < 10 then [DigitChar(n)] else NatToDecimal(n / 10) + [DigitChar(n % 10)]
  }

  /** `(string)$i` for an integer. */
  function IntToString(i: int): string {
    if i < 0 then "-" + NatToDecimal(-i) else NatToDecimal(i)
  }

  /** The integer a string denotes when PHP would treat it as an integer array key, ignoring the range check. */
  function CanonicalInt(s: string): Option<int> {
    if CanonicalNatural(s) then Some(DecimalValue(s))
    else if |s| >= 2 && s[0] == '-' && s[1] != '0' && CanonicalNatural(s[1..]) then Some(0 - DecimalValue(s[1..]) as int)
    else None
  }

  lemma {:induction false} NatToDecimalIsCanonical(n: nat)
    ensures CanonicalNatural(NatToDecimal(n))
    ensures DecimalValue(NatToDecimal(n)) == n
    ensures n > 0 ==> NatToDecimal(n)[0] != '0'
    decreases n
  {
    var s := NatToDecimal(n);
    if n >= 10 {
      NatToDecimalIsCanonical(n / 10);
      var p := NatToDecimal(n / 10);
      assert s == p + [DigitChar(n % 10)];
      assert s[..|s| - 1] == p;
      assert s[0] == p[0];
    }
  }

  lemma {:induction false} LeadingDigitPositive(s: string)
    requires |s| > 0 && AllDigits(s) && s[0] != '0'
    ensures DecimalValue(s) > 0
    decreases |s|
  {
    if |s| > 1 {
      LeadingDigitPositive(s[..|s| - 1]);
    }
  }

  lemma {:induction false} DecimalValueRoundTrip(s: string)
    requires CanonicalNatural(s)
    ensures NatToDecimal(DecimalValue(s)) == s
    decreases |s|
  {
    if |s| > 1 {
      var p := s[..|s| - 1];
      var d := (s[|s| - 1] as int) - ('0' as int);
      assert CanonicalNatural(p);
      LeadingDigitPositive(p);
      DecimalValueRoundTrip(p);
      var v := DecimalValue(p);
      assert DecimalValue(s) == v * 10 + d;
      assert (v * 10 + d) / 10 == v && (v * 10 + d) % 10 == d;
      assert DigitChar(d) == s[|s| - 1];
      assert s == p + [s[|s| - 1]];
    }
  }

  /** Printing an integer and reading it back as a key yields the integer. */
  lemma IntToStringRoundTrip(i: int)
    ensures CanonicalInt(IntToString(i)) == Some(i)
  {
    if i < 0 {
      NatToDecimalIsCanonical(-i);
      var s := IntToString(i);
      assert s[1..] == NatToDecimal(-i);
      assert !CanonicalNatural(s);
    } else {
      NatToDecimalIsCanonical(i);
    }
  }

  /** A string PHP reads as an integer key is the printed form of that integer. */
  lemma CanonicalIntIsPrinted(s: string)
    requires CanonicalInt(s).Some?
    ensures IntToString(CanonicalInt(s).value) == s
  {
    if CanonicalNatural(s) {
      DecimalValueRoundTrip(s);
    } else {
      var t := s[1..];
      DecimalValueRoundTrip(t);
      LeadingDigitPositive(t);
      assert s == "-" + t;
    }
  }

  // ---------------------------------------------------------------------
  // Arrays

  /** The array key a string becomes: `"12"` is the integer key 12, `"012"` and `"-0"` stay strings. */
  function KeyOf(s: string): (k: ArrayKey)
    ensures k.StrKey? ==> k.s == s
    ensures k.IntKey? ==> IntToString(k.i) == s && IntMin <= k.i <= IntMax
  {
    match CanonicalInt(s)
    case Some(i) =>
      CanonicalIntIsPrinted(s);
      if IntMin <= i <= IntMax then IntKey(i) else StrKey(s)
    case None => StrKey(s)
  }

  /** Two different strings never land on the same array key. */
  lemma KeyOfInjective(s1: string, s2: string)
    requires KeyOf(s1) == KeyOf(s2)
    ensures s1 == s2
  {
  }

  /** `$a[$k]` when the key is present. */
  function Get(a: PhpArray, k: ArrayKey): (r: Option<Value>)
    ensures r.Some? <==> exists i :: 0 <= i < |a| && a[i].0 == k
    ensures r.Some? ==> exists i :: 0 <= i < |a| && a[i] == (k, r.value)
  {
    if a == [] then None
    else if a[0].0 == k then Some(a[0].1)
    else
      var r := Get(a[1..], k);
      assert forall i :: 1 <= i < |a| ==> a[i] == a[1..][i - 1];
      r
  }

  /** `isset($a[$k])`: present and not null. */
  predicate IsSet(a: PhpArray, k: ArrayKey) {
    Get(a, k).Some? && !Get(a, k).value.Null?
  }

  /** `$a[$k] ?? $default`. */
  function Coalesce(a: PhpArray, k: ArrayKey, default: Value): (r: Value)
    ensures IsSet(a, k) ==> Get(a, k) == Some(r) && !r.Null?
    ensures !IsSet(a, k) ==> r == default
  {
    if IsSet(a, k) then Get(a, k).value else default
  }

  /** `$doc[$key]` on a parsed document that may not be an array at all: anything else has no keys. */
  function Field(doc: Value, key: ArrayKey): (r: Option<Value>)
    ensures !doc.Arr? ==> r.None?
  {
    if doc.Arr? then Get(doc.entries, key) else None
  }

  /** `isset($doc[$key])`. */
  predicate FieldIsSet(doc: Value, key: ArrayKey) {
    Field(doc, key).Some? && !Field(doc, key).value.Null?
  }

  // ---------------------------------------------------------------------
  // Strings

  /** A value returned through a `string` return type in coercive typing mode. */
  function CoerceToString(v: Value): (r: Result<string>)
    ensures r.Err? <==> v.Null? || v.Arr?
    ensures v.Str? ==> r == Ok(v.s)
  {
    match v
    case Null => Err(TypeError("string"))
    case Bool(b) => Ok(if b then "1" else "")
    case Int(i) => Ok(IntToString(i))
    case Str(s) => Ok(s)
    case Arr(_) => Err(TypeError("string"))
  }

  /** `empty($s)` for a string: only "" and "0" are empty. */
  predicate EmptyString(s: string) { s == "" || s == "0" }

  /** `empty($s)` for a nullable string. */
  predicate EmptyOptional(s: Option<string>) { s.None? || EmptyString(s.value) }

  /** The characters `trim()` strips by default: space, tab, newline, carriage return, NUL, vertical tab. */
  predicate IsTrimChar(c: char) {
    c == ' ' || c == '\t' || c == '\n' || c == '\r' || c == 0 as char || c == 11 as char
  }

  /** `ltrim($s)`: the trim characters at the front removed. */
  function TrimLeft(s: string): string {
    if s != [] && IsTrimChar(s[0]) then TrimLeft(s[1..]) else s
  }

  /** `rtrim($s)`: the trim characters at the back removed. */
  function TrimRight(s: string): string {
    if s != [] && IsTrimChar(s[|s| - 1]) then TrimRight(s[..|s| - 1]) else s
  }

  /** `trim($s)`: `s` without its leading and trailing trim characters. */
  function Trim(s: string): string {
    TrimRight(TrimLeft(s))
  }

  /** `ltrim` leaves a suffix of `s` that does not start with a trim character, having dropped only trim characters. */
  lemma {:induction false} TrimLeftFacts(s: string)
    ensures var r := TrimLeft(s);
      |r| <= |s| && r == s[|s| - |r|..]
      && (forall i :: 0 <= i < |s| - |r| ==> IsTrimChar(s[i]))
      && (r != [] ==> !IsTrimChar(r[0]))
    decreases |s|
  {
    if s != [] && IsTrimChar(s[0]) {
      TrimLeftFacts(s[1..]);
      var r := TrimLeft(s[1..]);
      assert s[1..][|s| - 1 - |r|..] == s[|s| - |r|..];
      forall i | 1 <= i < |s| - |r| ensures IsTrimChar(s[i]) {
        assert s[i] == s[1..][i - 1];
      }
    }
  }

  /** `rtrim` leaves a prefix of `s` that does not end with a trim character, having dropped only trim characters. */
  lemma {:induction false} TrimRightFacts(s: string)
    ensures var r := TrimRight(s);
      |r| <= |s| && r == s[..|r|]
      && (forall i :: |r| <= i < |s| ==> IsTrimChar(s[i]))
      && (r != [] ==> !IsTrimChar(r[|r| - 1]))
    decreases |s|
  {
    if s != [] && IsTrimChar(s[|s| - 1]) {
      var n := |s| - 1;
      TrimRightFacts(s[..n]);
      var r := TrimRight(s[..n]);
      assert s[..n][..|r|] == s[..|r|];
      forall i | |r| <= i < n ensures IsTrimChar(s[i]) {
        assert s[i] == s[..n][i];
      }
    }
  }

  /**
   * `trim()` gives a string that neither starts nor ends with a trim
   * character, no longer than `s`, and leaves such a string unchanged.
   */
  lemma TrimFacts(s: string)
    ensures var r := Trim(s);
      (r != [] ==> !IsTrimChar(r[0]) && !IsTrimChar(r[|r| - 1]))
      && |r| <= |s|
      && ((s != [] ==> !IsTrimChar(s[0]) && !IsTrimChar(s[|s| - 1])) ==> r == s)
  {
    var l := TrimLeft(s);
    TrimLeftFacts(s);
    TrimRightFacts(l);
    var r := TrimRight(l);
    if r != [] {
      assert r[0] == l[0];
    }
    if s != [] && !IsTrimChar(s[0]) && !IsTrimChar(s[|s| - 1]) {
      assert l == s;
      assert r == s;
    }
  }

  // ---------------------------------------------------------------------
  // `(int)` of a string

  /** Leading white space `(int)` skips: space, tab, newline, carriage return, vertical tab, form feed. */
  predicate IsLeadingSpace(c: char) {
    c == ' ' || c == '\t' || c == '\n' || c == '\r' || c == 11 as char || c == 12 as char
  }

  /** The longest prefix of `s` made of decimal digits. */
  function DigitPrefix(s: string): (d: string)
    ensures AllDigits(d) && d <= s
    ensures |d| < |s| ==> !IsDigit(s[|d|])
  {
    if s == [] || !IsDigit(s[0]) then "" else [s[0]] + DigitPrefix(s[1..])
  }

  function Clamp(i: int): (r: int)
    ensures IntMin <= r <= IntMax
    ensures IntMin <= i <= IntMax ==> r == i
  {
    if i < IntMin then IntMin else if i > IntMax then IntMax else i
  }

  /**
   * `(int)$s`: white space, an optional sign and the leading digits; anything
   * after them is ignored, no digits at all give 0, and out-of-range values
   * saturate on a 64-bit build.
   */
  function IntCast(s: string): (r: int)
    ensures IntMin <= r <= IntMax
    decreases |s|
  {
    if s != [] && IsLeadingSpace(s[0]) then IntCast(s[1..])
    else if s != [] && s[0] == '-' then Clamp(0 - DecimalValue(DigitPrefix(s[1..])))
    else if s != [] && s[0] == '+' then Clamp(DecimalValue(DigitPrefix(s[1..])))
    else Clamp(DecimalValue(DigitPrefix(s)))
  }

  /** Reading back a printed count: `(int) trim()` of a line holding `n` gives `n`. */
  lemma CountLineRoundTrip(n: nat)
    requires n <= IntMax
    ensures IntCast(Trim(NatToDecimal(n) + "\n")) == n
  {
    var d := NatToDecimal(n);
    NatToDecimalIsCanonical(n);
    TrimDigitsLine(d);
    DigitPrefixOfDigits(d);
  }

  lemma {:induction false} DigitPrefixOfDigits(d: string)
    requires AllDigits(d)
    ensures DigitPrefix(d) == d
    decreases |d|
  {
    if d != [] {
      DigitPrefixOfDigits(d[1..]);
    }
  }

  lemma TrimDigitsLine(d: string)
    requires |d| > 0 && AllDigits(d)
    ensures Trim(d + "\n") == d
  {
    var s := d + "\n";
    assert !IsTrimChar(s[0]);
    assert TrimLeft(s) == s;
    assert s[..|s| - 1] == d;
    assert TrimRight(s) == TrimRight(d);
  }
}
