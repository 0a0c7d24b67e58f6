/**
 * The slice of JavaScript value semantics the modelled code relies on:
 * JSON-shaped values, truthiness (`||`, `filter(Boolean)`, `Boolean(x)`),
 * optional property reads (`x?.key`), `String(x)`, `Number(x)`,
 * `String.prototype.trim`, `slice(0, n)` and `Array.prototype.join`.
 *
 * Numbers are unbounded integers; strings are sequences of Unicode scalar values.
 */
module JsValues {
  import opened SeqFacts

  /** A JavaScript value as it arrives from `JSON.parse`, plus `undefined` and `NaN`. */
  datatype Value =
    | Undefined
    | Null
    | Bool(b: bool)
    | Num(n: int)
    | NaN
    | Str(s: string)
    | Arr(elems: seq<Value>)
    | Obj(fields: map<string, Value>)

  /** `v == null`, the values `??` and `?.` skip. */
  predicate Nullish(v: Value) {
    v.Undefined? || v.Null?
  }

  /** `Boolean(v)`: the falsy values are undefined, null, false, 0, NaN and "". */
  predicate Truthy(v: Value) {
    match v
    case Undefined => false
    case Null => false
    case Bool(b) => b
    case Num(n) => n != 0
    case NaN => false
    case Str(s) => s != ""
    case Arr(_) => true
    case Obj(_) => true
  }

  /** `a || b`. */
  function Or(a: Value, b: Value): Value {
    if Truthy(a) then a else b
  }

  /**
   * `v?.key` for the keys this code reads. None of them is a property that a string,
   * an array or Object.prototype carries, so every non-object reads as `undefined`.
   */
  function Get(v: Value, key: string): Value {
    if v.Obj? && key in v.fields then v.fields[key] else Undefined
  }

  // ---------------------------------------------------------------- whitespace and trim

  /** The WhiteSpace and LineTerminator code points that `trim` removes. */
  predicate IsWhitespace(c: char) {
    if c < '\U{00A0}' then '\t' <= c <= '\r' || c == ' ' else Occurs(c, WideWhitespace)
  }

  /** The whitespace code points from U+00A0 up. */
  const WideWhitespace: string :=
    "\U{00A0}\U{1680}\U{2000}\U{2001}\U{2002}\U{2003}\U{2004}\U{2005}\U{2006}\U{2007}\U{2008}\U{2009}\U{200A}"
    + "\U{2028}\U{2029}\U{202F}\U{205F}\U{3000}\U{FEFF}"

  /**
   * `c in cs`, written out recursively so that the verifier unfolds it one step at a time
   * rather than all at once.
   */
  predicate Occurs(c: char, cs: string) {
    cs != [] && (cs[0] == c || Occurs(c, cs[1..]))
  }

  /** A string that neither starts nor ends with whitespace. */
  predicate IsTrimmed(s: string) {
    s == "" || (!IsWhitespace(s[0]) && !IsWhitespace(s[|s| - 1]))
  }

  /** A string of whitespace only. */
  predicate AllWhitespace(s: string) {
    forall i | 0 <= i < |s| :: IsWhitespace(s[i])
  }

  /** Drops the leading whitespace: what remains is a suffix starting with a non-space. */
  function TrimStart(s: string): (r: string)
    ensures |r| <= |s| && r == s[|s| - |r|..]
    ensures forall i | 0 <= i < |s| - |r| :: IsWhitespace(s[i])
    ensures r == "" || !IsWhitespace(r[0])
  {
    if s != "" && IsWhitespace(s[0]) then
      var r := TrimStart(s[1..]);
      assert s[1..][|s| - 1 - |r|..] == s[|s| - |r|..];
      r
    else s
  }

  /** Drops the trailing whitespace: what remains is a prefix ending in a non-space. */
  function TrimEnd(s: string): (r: string)
    ensures |r| <= |s| && r == s[..|r|]
    ensures forall i | |r| <= i < |s| :: IsWhitespace(s[i])
    ensures r == "" || !IsWhitespace(r[|r| - 1])
  {
    if s != "" && IsWhitespace(s[|s| - 1]) then TrimEnd(s[..|s| - 1]) else s
  }

  /** `s.trim()`: the part of `s` between its leading and its trailing whitespace. */
  function Trim(s: string): (r: string)
    ensures IsTrimmed(r)
    ensures |r| <= |s|
    ensures r == "" <==> AllWhitespace(s)
  {
    TrimFacts(s);
    TrimEnd(TrimStart(s))
  }

  /** What trimming the start and then the end keeps. */
  lemma TrimFacts(s: string)
    ensures var r := TrimEnd(TrimStart(s));
            IsTrimmed(r) && |r| <= |s| && (r == "" <==> AllWhitespace(s))
  {
    var t := TrimStart(s);
    KeptPart(s, t, TrimEnd(t));
  }

  /** A prefix `r` of a suffix `t` of `s`, followed in `t` by whitespace only. */
  lemma KeptPart(s: string, t: string, r: string)
    requires |t| <= |s| && t == s[|s| - |t|..]
    requires |r| <= |t| && r == t[..|r|]
    requires forall i | 0 <= i < |s| - |t| :: IsWhitespace(s[i])
    requires forall i | |r| <= i < |t| :: IsWhitespace(t[i])
    requires t == "" || !IsWhitespace(t[0])
    requires r == "" || !IsWhitespace(r[|r| - 1])
    ensures IsTrimmed(r)
    ensures r == s[|s| - |t|..|s| - |t| + |r|]
    ensures forall i | |s| - |t| + |r| <= i < |s| :: IsWhitespace(s[i])
    ensures r == "" <==> AllWhitespace(s)
  {
    var k := |s| - |t|;
    assert r != "" ==> r[0] == t[0];
    forall i | k + |r| <= i < |s|
      ensures IsWhitespace(s[i])
    {
      assert s[i] == t[i - k];
    }
  }

  /**
   * What `Trim` keeps is a contiguous part of `s`, with whitespace only before it and
   * whitespace only after it.
   */
  lemma TrimKeepsMiddle(s: string)
    ensures exists k :: KeptBetween(s, Trim(s), k)
  {
    var t := TrimStart(s);
    var r := TrimEnd(t);
    assert Trim(s) == r;
    var k := KeptMiddle(s, t, r);
    assert KeptBetween(s, r, k);
  }

  /** `r` is the part of `s` from `k` on, with only whitespace before and after it. */
  predicate KeptBetween(s: string, r: string, k: nat) {
    k <= |s| - |r| && r == s[k..k + |r|] && AllWhitespace(s[..k]) && AllWhitespace(s[k + |r|..])
  }

  /** The part `KeptPart` describes sits between two runs of whitespace of `s`, from `k` on. */
  lemma KeptMiddle(s: string, t: string, r: string) returns (k: nat)
    requires |t| <= |s| && t == s[|s| - |t|..]
    requires |r| <= |t| && r == t[..|r|]
    requires forall i | 0 <= i < |s| - |t| :: IsWhitespace(s[i])
    requires forall i | |r| <= i < |t| :: IsWhitespace(t[i])
    ensures k <= |s| - |r| && r == s[k..k + |r|]
    ensures AllWhitespace(s[..k]) && AllWhitespace(s[k + |r|..])
  {
    k := |s| - |t|;
    assert r == s[k..k + |r|];
    assert AllWhitespace(s[..k]);
    var rest := s[k + |r|..];
    forall i | 0 <= i < |rest|
      ensures IsWhitespace(rest[i])
    {
      assert rest[i] == t[|r| + i];
    }
  }

  /** Trimming a string that is already trimmed changes nothing. */
  lemma TrimOfTrimmed(s: string)
    requires IsTrimmed(s)
    ensures Trim(s) == s
  {
  }

  /** `trim` is idempotent. */
  lemma TrimIdempotent(s: string)
    ensures Trim(Trim(s)) == Trim(s)
  {
    TrimOfTrimmed(Trim(s));
  }

  // ---------------------------------------------------------------- slice and join

  /** `s.slice(0, n)`: the first `n` characters, or all of `s` when it is shorter. */
  function Prefix(s: string, n: nat): (r: string)
    ensures |r| == if |s| <= n then |s| else n
    ensures r == s[..|r|]
  {
    if |s| <= n then s else s[..n]
  }

  /** `xs.join(sep)` over strings. */
  function Join(sep: string, xs: seq<string>): string {
    if |xs| == 0 then ""
    else if |xs| == 1 then xs[0]
    else xs[0] + sep + Join(sep, xs[1..])
  }

  /**
   * Joining non-empty, trimmed strings with a single space gives a trimmed string:
   * its first and last characters come from the first and last part.
   */
  lemma {:induction false} JoinOfTrimmedIsTrimmed(xs: seq<string>)
    requires forall i | 0 <= i < |xs| :: xs[i] != "" && IsTrimmed(xs[i])
    ensures IsTrimmed(Join(" ", xs))
    ensures xs != [] ==> Join(" ", xs) != ""
  {
    if |xs| > 1 {
      JoinOfTrimmedIsTrimmed(xs[1..]);
      var rest := Join(" ", xs[1..]);
      var j := xs[0] + " " + rest;
      assert j[0] == xs[0][0];
      assert j[|j| - 1] == rest[|rest| - 1];
    }
  }

  // ---------------------------------------------------------------- truthy filter

  /** `xs.filter(Boolean)`: the truthy values, in their original order. */
  function FilterTruthy(xs: seq<Value>): (r: seq<Value>)
    ensures |r| <= |xs|
    ensures forall i | 0 <= i < |r| :: Truthy(r[i]) && r[i] in xs
    ensures forall x | x in xs && Truthy(x) :: x in r
    ensures (forall i | 0 <= i < |xs| :: !Truthy(xs[i])) <==> r == []
  {
    if xs == [] then []
    else if Truthy(xs[0]) then [xs[0]] + FilterTruthy(xs[1..])
    else FilterTruthy(xs[1..])
  }

  /** The filter keeps order: filtering a concatenation concatenates the filtered halves. */
  lemma {:induction false} FilterTruthyAppend(a: seq<Value>, b: seq<Value>)
    ensures FilterTruthy(a + b) == FilterTruthy(a) + FilterTruthy(b)
  {
    if a == [] {
      assert a + b == b;
    } else {
      var ab := a + b;
      assert ab[0] == a[0] && ab[1..] == a[1..] + b;
      FilterTruthyAppend(a[1..], b);
      var fa, fb := FilterTruthy(a[1..]), FilterTruthy(b);
      if Truthy(a[0]) {
        assert FilterTruthy(ab) == [a[0]] + (fa + fb);
        assert FilterTruthy(a) == [a[0]] + fa;
        AppendAssociative([a[0]], fa, fb);
      } else {
        assert FilterTruthy(ab) == fa + fb;
        assert FilterTruthy(a) == fa;
      }
    }
  }

  /** A list whose every value is truthy passes the filter unchanged. */
  lemma {:induction false} FilterTruthyKeepsTruthy(xs: seq<Value>)
    requires forall i | 0 <= i < |xs| :: Truthy(xs[i])
    ensures FilterTruthy(xs) == xs
  {
    if xs != [] {
      FilterTruthyKeepsTruthy(xs[1..]);
    }
  }

  /** `xs.filter(Boolean)` over strings: the non-empty ones, in their original order. */
  function FilterNonEmpty(xs: seq<string>): (r: seq<string>)
    ensures |r| <= |xs|
    ensures forall i | 0 <= i < |r| :: r[i] != "" && r[i] in xs
    ensures forall x | x in xs && x != "" :: x in r
  {
    if xs == [] then []
    else if xs[0] != "" then [xs[0]] + FilterNonEmpty(xs[1..])
    else FilterNonEmpty(xs[1..])
  }

  /** The string filter keeps order: filtering a concatenation concatenates the filtered halves. */
  lemma {:induction false} FilterNonEmptyAppend(a: seq<string>, b: seq<string>)
    ensures FilterNonEmpty(a + b) == FilterNonEmpty(a) + FilterNonEmpty(b)
  {
    if a == [] {
      assert a + b == b;
    } else {
      var ab := a + b;
      assert ab[0] == a[0] && ab[1..] == a[1..] + b;
      FilterNonEmptyAppend(a[1..], b);
      var fa, fb := FilterNonEmpty(a[1..]), FilterNonEmpty(b);
      if a[0] != "" {
        assert FilterNonEmpty(ab) == [a[0]] + (fa + fb);
        assert FilterNonEmpty(a) == [a[0]] + fa;
        AppendAssociative([a[0]], fa, fb);
      } else {
        assert FilterNonEmpty(ab) == fa + fb;
        assert FilterNonEmpty(a) == fa;
      }
    }
  }

  /** A list of non-empty strings passes the filter unchanged. */
  lemma {:induction false} FilterNonEmptyKeepsNonEmpty(xs: seq<string>)
    requires forall i | 0 <= i < |xs| :: xs[i] != ""
    ensures FilterNonEmpty(xs) == xs
  {
    if xs != [] {
      FilterNonEmptyKeepsNonEmpty(xs[1..]);
    }
  }

  /** `s.replace(from, to)` with a one-character string pattern: only the first occurrence changes. */
  function ReplaceFirst(s: string, from: char, to: char): (r: string)
    ensures |r| == |s|
    ensures forall i | 0 <= i < |s| :: r[i] == if s[i] == from && from !in s[..i] then to else s[i]
  {
    if s == "" then ""
    else if s[0] == from then [to] + s[1..]
    else
      var rest := ReplaceFirst(s[1..], from, to);
      assert forall i | 1 <= i < |s| :: s[1..][..i - 1] == s[1..i];
      [s[0]] + rest
  }

  /** A string without the pattern character is left as it is. */
  lemma {:induction false} ReplaceFirstAbsent(s: string, from: char, to: char)
    requires from !in s
    ensures ReplaceFirst(s, from, to) == s
  {
    if s != "" {
      assert from !in s[1..];
      ReplaceFirstAbsent(s[1..], from, to);
    }
  }

  // ---------------------------------------------------------------- numbers as text

  predicate IsDigit(c: char) {
    '0' <= c <= '9'
  }

  predicate AllDigits(s: string) {
    forall i | 0 <= i < |s| :: IsDigit(s[i])
  }

  function DigitChar(d: nat): (c: char)
    requires d < 10
    ensures IsDigit(c)
  {
    ('0' as int + d) as char
  }

  /** The decimal digits of a natural number, without leading zeros. */
  function NatToDecimal(n: nat): (r: string)
    ensures r != "" && AllDigits(r)
    ensures r[0] == '0' ==> n == 0 && r == "0"
  {
    if n < 10 then [DigitChar(n)] else NatToDecimal(n / 10) + [DigitChar(n % 10)]
  }

  /** `String(n)` for an integer: its decimal digits, with a minus sign when negative. */
  function DecimalString(n: int): string {
    if n < 0 then "-" + NatToDecimal(-n) else NatToDecimal(n)
  }

  /** The text of an integer holds digits and at most a leading minus sign, never a comma. */
  lemma DecimalStringHasNoComma(n: int)
    ensures ',' !in DecimalString(n)
  {
    var d := NatToDecimal(if n < 0 then -n else n);
    assert ',' !in d by {
      assert forall i | 0 <= i < |d| :: IsDigit(d[i]);
    }
    if n < 0 {
      assert DecimalString(n) == "-" + d;
    }
  }

  /** The value of a string of decimal digits. */
  function DigitsValue(s: string): nat
    requires AllDigits(s)
  {
    if s == "" then 0 else DigitsValue(s[..|s| - 1]) * 10 + (s[|s| - 1] as int - '0' as int)
  }

  /** Reading back the decimal digits of `n` gives `n`. */
  lemma {:induction false} DigitsValueOfDecimal(n: nat)
    ensures DigitsValue(NatToDecimal(n)) == n
  {
    if n >= 10 {
      var r := NatToDecimal(n);
      assert r[..|r| - 1] == NatToDecimal(n / 10);
      DigitsValueOfDecimal(n / 10);
    }
  }

  /**
   * `Number(s)` for a string: surrounding whitespace is ignored, a blank string is 0,
   * an optionally signed run of decimal digits is its value, anything else is NaN.
   */
  function StringToNumber(s: string): (r: Value)
    ensures r.Num? || r.NaN?
    ensures Trim(s) == "" ==> r == Num(0)
  {
    var t := Trim(s);
    if t == "" then Num(0)
    else if |t| > 1 && t[0] == '-' && AllDigits(t[1..]) then Num(-(DigitsValue(t[1..]) as int))
    else if |t| > 1 && t[0] == '+' && AllDigits(t[1..]) then Num(DigitsValue(t[1..]))
    else if AllDigits(t) then Num(DigitsValue(t))
    else NaN
  }

  /** `Number` of a string value is the reading of the string. */
  lemma NumberOfString(s: string)
    ensures ToNumber(Str(s)) == StringToNumber(s)
  {
  }

  /** Digits are not whitespace, so a run of digits is already trimmed. */
  lemma DigitsAreTrimmed(t: string)
    requires AllDigits(t)
    ensures Trim(t) == t
  {
    if t != "" {
      assert IsDigit(t[0]) && IsDigit(t[|t| - 1]);
      TrimOfTrimmed(t);
    }
  }

  /** `Number` of a run of digits is its value. */
  lemma NumberOfDigits(t: string)
    requires t != "" && AllDigits(t)
    ensures StringToNumber(t) == Num(DigitsValue(t))
  {
    DigitsAreTrimmed(t);
    assert IsDigit(t[0]);
  }

  /** `Number` of a minus sign followed by a run of digits is the negated value. */
  lemma NumberOfNegativeDigits(t: string)
    requires t != "" && AllDigits(t)
    ensures StringToNumber("-" + t) == Num(-(DigitsValue(t) as int))
  {
    var s := "-" + t;
    assert s[0] == '-' && s[1..] == t && s[|s| - 1] == t[|t| - 1];
    assert IsDigit(t[|t| - 1]);
    TrimOfTrimmed(s);
  }

  /** `String(n)` read back by `Number` gives `n`. */
  lemma DecimalStringRoundTrip(n: int)
    ensures StringToNumber(DecimalString(n)) == Num(n)
  {
    if n < 0 {
      var m: nat := -n;
      var s := DecimalString(n);
      assert s == "-" + NatToDecimal(m);
      NegativeRoundTrip(m);
      assert StringToNumber(s) == Num(-(m as int));
    } else {
      NaturalRoundTrip(n);
    }
  }

  /** The digits of a natural number read back as that number. */
  lemma NaturalRoundTrip(m: nat)
    ensures StringToNumber(NatToDecimal(m)) == Num(m)
  {
    DigitsValueOfDecimal(m);
    NumberOfDigits(NatToDecimal(m));
  }

  /** A minus sign and the digits of a natural number read back as its negation. */
  lemma NegativeRoundTrip(m: nat)
    ensures StringToNumber("-" + NatToDecimal(m)) == Num(-(m as int))
  {
    DigitsValueOfDecimal(m);
    NumberOfNegativeDigits(NatToDecimal(m));
  }

  /** A trimmed text that starts with a digit but is not all digits is not a number. */
  lemma NonNumericText(s: string)
    requires IsTrimmed(s) && s != "" && IsDigit(s[0]) && !AllDigits(s)
    ensures StringToNumber(s) == NaN
  {
    TrimOfTrimmed(s);
  }

  /**
   * Whether `String(v)` and `Number(v)` return instead of throwing. Both convert an object
   * through its `toString` and `valueOf` methods; a parsed object whose own "toString" key
   * holds data has no callable `toString`, and the inherited `valueOf` returns the object
   * itself, so the conversion throws a TypeError. An array converts through `join`, that is
   * through each element that is neither null nor undefined.
   */
  predicate Converts(v: Value)
    decreases v
  {
    match v
    case Obj(fields) => "toString" !in fields
    case Arr(es) => forall i | 0 <= i < |es| :: Nullish(es[i]) || Converts(es[i])
    case _ => true
  }

  /**
   * `String(v)` for a value that converts (`Converts(v)`); for any other value `String(v)`
   * throws, which the callers model by checking `Converts` first.
   */
  function ToJsString(v: Value): (r: string)
    ensures v.Str? ==> r == v.s
    ensures !v.Arr? ==> (r == "" <==> v == Str(""))
    decreases v
  {
    match v
    case Undefined => "undefined"
    case Null => "null"
    case Bool(b) => if b then "true" else "false"
    case Num(n) => DecimalString(n)
    case NaN => "NaN"
    case Str(s) => s
    case Arr(es) =>
      // Array.prototype.toString: join(","), with null and undefined as ""
      Join(",", seq(|es|, i requires 0 <= i < |es| => if Nullish(es[i]) then "" else ToJsString(es[i])))
    case Obj(_) => "[object Object]"
  }

  /** `Number(v)` for a value that converts; like `String(v)`, it throws for any other value. */
  function ToNumber(v: Value): (r: Value)
    ensures r.Num? || r.NaN?
    ensures v.Num? ==> r == v
    ensures v.Null? ==> r == Num(0)
    ensures v.Bool? ==> r == Num(if v.b then 1 else 0)
    ensures v.Undefined? || v.NaN? ==> r == NaN
    ensures v.Str? ==> r == StringToNumber(v.s)
  {
    match v
    case Undefined => NaN
    case Null => Num(0)
    case Bool(b) => Num(if b then 1 else 0)
    case Num(_) => v
    case NaN => NaN
    case Str(s) => StringToNumber(s)
    case Arr(_) => StringToNumber(ToJsString(v))
    case Obj(_) => NaN
  }
}
