/** The few JavaScript value semantics the application's decisions depend on:
    `typeof`, `===`, truthiness (for `||` and `if`), numeric coercion (for `<=`),
    `String(n)` of a port number and `String.prototype.split`. */
module Js {

  import opened Wrappers

  /** The JavaScript values the model needs. Numbers are integers; NaN only arises
      inside `ToNumber`. `StrArray` is an array of strings (the `seeds` option);
      `Obj` is any other object. */
  datatype JsValue =
    | Undefined
    | Null
    | Bool(b: bool)
    | Num(n: int)
    | Str(s: string)
    | StrArray(items: seq<string>)
    | Obj

  /** An exception raised by the JavaScript runtime or by the application. */
  datatype JsError = TypeError(message: string)

  /** The `typeof` operator. */
  function TypeOf(v: JsValue): string
  {
    match v
    case Undefined => "undefined"
    case Null => "object"
    case Bool(_) => "boolean"
    case Num(_) => "number"
    case Str(_) => "string"
    case StrArray(_) => "object"
    case Obj => "object"
  }

  /** Truthiness, as used by `||` and by `if (x)`. */
  predicate Truthy(v: JsValue)
  {
    match v
    case Undefined => false
    case Null => false
    case Bool(b) => b
    case Num(n) => n != 0
    case Str(s) => s != ""
    case StrArray(_) => true
    case Obj => true
  }

  /** Strict equality `a === b`: values of different types are never equal. Arrays and
      objects compare by identity, which these values do not carry, so the model never
      calls two of them equal (no comparison in the application involves one). */
  function StrictEquals(a: JsValue, b: JsValue): (eq: bool)
    ensures eq ==> TypeOf(a) == TypeOf(b)
    ensures eq ==> a == b
  {
    match (a, b)
    case (Undefined, Undefined) => true
    case (Null, Null) => true
    case (Bool(x), Bool(y)) => x == y
    case (Num(x), Num(y)) => x == y
    case (Str(x), Str(y)) => x == y
    case _ => false
  }

  // ---------------------------------------------------------------------------
  // Decimal digits: `String(n)` for a port number and `Number(s)` for a numeral

  predicate IsDigit(c: char)
  {
    '0' <= c <= '9'
  }

  predicate AllDigits(s: string)
  {
    forall i :: 0 <= i < |s| ==> IsDigit(s[i])
  }

  function DigitChar(d: nat): (c: char)
    requires d < 10
    ensures IsDigit(c) && c as int - '0' as int == d
  {
    ('0' as int + d) as char
  }

  /** `String(n)` for a non-negative integer: its decimal numeral, without leading zeros. */
  function Decimal(n: nat): (s: string)
    ensures |s| >= 1 && AllDigits(s)
    ensures |s| > 1 ==> s[0] != '0'
  {
    if n < 10 then [DigitChar(n)] else Decimal(n / 10) + [DigitChar(n % 10)]
  }

  /** The value of a string of decimal digits (the empty string has value 0, as `Number("")`). */
  function DigitsValue(s: string): nat
    requires AllDigits(s)
  {
    if |s| == 0 then 0 else DigitsValue(s[..|s| - 1]) * 10 + (s[|s| - 1] as int - '0' as int)
  }

  /** Reading back a rendered number gives the number. */
  lemma {:induction false} DecimalRoundTrip(n: nat)
    ensures DigitsValue(Decimal(n)) == n
  {
    var s := Decimal(n);
    if n >= 10 {
      assert s[..|s| - 1] == Decimal(n / 10);
      DecimalRoundTrip(n / 10);
    }
  }

  /** Two different numbers render differently. */
  lemma DecimalInjective(m: nat, n: nat)
    requires Decimal(m) == Decimal(n)
    ensures m == n
  {
    DecimalRoundTrip(m);
    DecimalRoundTrip(n);
  }

  /** `Number(s)` for the numerals the model reads: a string of digits (the empty string
      is 0); any other string is NaN, written None. */
  function StringToNumber(s: string): (r: Option<int>)
    ensures r.Some? <==> AllDigits(s)
    ensures AllDigits(s) ==> r.value == DigitsValue(s)
  {
    if AllDigits(s) then Some(DigitsValue(s)) else None
  }

  /** The numeric coercion `Number(v)` performed by a relational comparison; None is NaN.
      An array becomes the string of its elements joined by commas first. */
  function ToNumber(v: JsValue): Option<int>
  {
    match v
    case Undefined => None
    case Null => Some(0)
    case Bool(b) => Some(if b then 1 else 0)
    case Num(n) => Some(n)
    case Str(s) => StringToNumber(s)
    case StrArray(items) =>
      if |items| == 0 then Some(0)
      else if |items| == 1 then StringToNumber(items[0])
      else None
    case Obj => None
  }

  /** `v <= n` for a number `n`: false whenever `v` coerces to NaN. */
  function LessOrEqual(v: JsValue, n: int): (le: bool)
    ensures v.Num? ==> (le <==> v.n <= n)
    ensures v.Undefined? ==> !le
    ensures le ==> ToNumber(v).Some? && ToNumber(v).value <= n
  {
    match ToNumber(v)
    case Some(x) => x <= n
    case None => false
  }

  // ---------------------------------------------------------------------------
  // `s.split(sep)` for a one-character separator, and its inverse `parts.join(sep)`

  /** `s.split(sep)`: the maximal separator-free pieces between separators, in order.
      There is always at least one piece (`"".split(":")` is `[""]`). */
  function Split(s: string, sep: char): (parts: seq<string>)
    ensures |parts| >= 1
    ensures forall i :: 0 <= i < |parts| ==> sep !in parts[i]
    decreases |s|
  {
    if s == [] then [""]
    else
      var rest := Split(s[1..], sep);
      if s[0] == sep then [""] + rest
      else [[s[0]] + rest[0]] + rest[1..]
  }

  /** `parts.join(sep)`. */
  function Join(parts: seq<string>, sep: char): string
    requires |parts| >= 1
    decreases |parts|
  {
    if |parts| == 1 then parts[0] else parts[0] + [sep] + Join(parts[1..], sep)
  }

  /** Joining the pieces of a split gives back the original string. */
  lemma {:induction false} JoinSplit(s: string, sep: char)
    ensures Join(Split(s, sep), sep) == s
    decreases |s|
  {
    if s != [] {
      var rest := Split(s[1..], sep);
      JoinSplit(s[1..], sep);
      if s[0] == sep {
        assert Split(s, sep) == [""] + rest;
        assert ([""] + rest)[1..] == rest;
      } else {
        var parts := [[s[0]] + rest[0]] + rest[1..];
        assert Split(s, sep) == parts;
        if |rest| > 1 {
          assert parts[1..] == rest[1..];
          assert Join(rest, sep) == rest[0] + [sep] + Join(rest[1..], sep);
          assert Join(parts, sep) == [s[0]] + rest[0] + [sep] + Join(rest[1..], sep);
        }
        assert Join(parts, sep) == [s[0]] + Join(rest, sep);
        assert s == [s[0]] + s[1..];
      }
    }
  }

  /** Splitting a separator-free prefix followed by `t` glues the prefix onto the first
      piece of `t`. */
  lemma {:induction false} SplitFreePrefix(x: string, t: string, sep: char)
    requires sep !in x
    ensures Split(x + t, sep) == [x + Split(t, sep)[0]] + Split(t, sep)[1..]
    decreases |x|
  {
    if x == [] {
      assert x + t == t;
      assert x + Split(t, sep)[0] == Split(t, sep)[0];
      assert Split(t, sep) == [Split(t, sep)[0]] + Split(t, sep)[1..];
    } else {
      assert (x + t)[0] == x[0] && (x + t)[1..] == x[1..] + t;
      SplitFreePrefix(x[1..], t, sep);
      assert [x[0]] + (x[1..] + Split(t, sep)[0]) == x + Split(t, sep)[0];
    }
  }

  /** Splitting a join of separator-free pieces gives back the pieces. */
  lemma {:induction false} SplitJoin(parts: seq<string>, sep: char)
    requires |parts| >= 1
    requires forall i :: 0 <= i < |parts| ==> sep !in parts[i]
    ensures Split(Join(parts, sep), sep) == parts
    decreases |parts|
  {
    if |parts| == 1 {
      SplitFreePrefix(parts[0], [], sep);
      assert parts[0] + [] == parts[0];
    } else {
      var tail := Join(parts[1..], sep);
      SplitJoin(parts[1..], sep);
      assert Split([sep] + tail, sep) == [""] + Split(tail, sep);
      assert parts[0] + [sep] + tail == parts[0] + ([sep] + tail);
      SplitFreePrefix(parts[0], [sep] + tail, sep);
      assert ([""] + parts[1..])[1..] == parts[1..];
      assert parts[0] + "" == parts[0];
    }
  }

  /** `x + [sep] + y == x' + [sep] + y'` with separator-free `y`, `y'` splits at the last
      separator, so both halves agree. */
  lemma LastSeparator(x1: string, y1: string, x2: string, y2: string, sep: char)
    requires sep !in y1 && sep !in y2
    requires x1 + [sep] + y1 == x2 + [sep] + y2
    ensures x1 == x2 && y1 == y2
  {
    var s := x1 + [sep] + y1;
    assert s[|x1|] == sep && s[|x2|] == sep;
    assert x1 == s[..|x1|] == x2;
    assert y1 == s[|x1| + 1..] == y2;
  }
}
