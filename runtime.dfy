/** The few facilities of the .NET runtime that the domain base types rely on:
    null references and exceptions, arguments of static type `object`, fixed-width
    integers with their three-way comparison, and ordinal string comparison. */
module Runtime {

  /** A nullable reference: `None` is C#'s `null`. */
  datatype Option<+T> = None | Some(value: T)

  /** The exceptions the base types can raise. */
  datatype Error =
    | NullReference     // a member accessed through a null reference
    | InvalidCast       // an explicit cast to a class the object does not derive from
    | IndexOutOfRange   // an array read past its end
    | Argument          // IComparable.CompareTo given an object of another type
    | InvalidOperation  // Enumerable.Aggregate without a seed on an empty sequence

  /** The outcome of a call that either returns a value or throws. */
  datatype Result<+T> = Ok(value: T) | Err(error: Error)

  /** A non-null argument of static type `object`: either an instance of the class
      family under study, or an object of some unrelated class, known only by the
      full name of its runtime type. */
  datatype Object<+T> = Is(value: T) | Foreign(typeName: string)

  type Int32 = x: int | -0x8000_0000 <= x < 0x8000_0000
  type Int64 = x: int | -0x8000_0000_0000_0000 <= x < 0x8000_0000_0000_0000

  /** `Int32.CompareTo` / `Int64.CompareTo`: exactly -1, 0 or 1. */
  function CompareInt(a: int, b: int): (r: int)
    ensures r == -1 || r == 0 || r == 1
    ensures r < 0 <==> a < b
    ensures r == 0 <==> a == b
  {
    if a < b then -1 else if a == b then 0 else 1
  }

  /** `string.Compare(s, t, StringComparison.Ordinal)`: .NET compares UTF-16 code
      units lexicographically, and a proper prefix sorts first. This model compares
      Dafny characters, which are Unicode scalar values, so the two orders part only
      beyond the Basic Multilingual Plane. .NET promises only the sign of the
      result; the model returns -1, 0 or 1. */
  function CompareOrdinal(s: string, t: string): (r: int)
    ensures r == -1 || r == 0 || r == 1
  {
    if |s| == 0 && |t| == 0 then 0
    else if |s| == 0 then -1
    else if |t| == 0 then 1
    else if s[0] < t[0] then -1
    else if s[0] > t[0] then 1
    else CompareOrdinal(s[1..], t[1..])
  }

  lemma {:induction false} CompareOrdinalZeroIff(s: string, t: string)
    ensures CompareOrdinal(s, t) == 0 <==> s == t
  {
    if |s| > 0 && |t| > 0 && s[0] == t[0] {
      CompareOrdinalZeroIff(s[1..], t[1..]);
      assert s == [s[0]] + s[1..] && t == [t[0]] + t[1..];
    }
  }

  lemma {:induction false} CompareOrdinalAntisymmetric(s: string, t: string)
    ensures CompareOrdinal(t, s) == -CompareOrdinal(s, t)
  {
    if |s| > 0 && |t| > 0 && s[0] == t[0] {
      CompareOrdinalAntisymmetric(s[1..], t[1..]);
    }
  }

  lemma {:induction false} CompareOrdinalTransitive(s: string, t: string, u: string)
    requires CompareOrdinal(s, t) < 0 && CompareOrdinal(t, u) < 0
    ensures CompareOrdinal(s, u) < 0
  {
    if |s| > 0 && |t| > 0 && |u| > 0 && s[0] == t[0] == u[0] {
      CompareOrdinalTransitive(s[1..], t[1..], u[1..]);
    }
  }

  /** `Int64.ToString()` as the invariant culture writes it: optional minus sign,
      then the decimal digits of the magnitude without leading zeros. The code
      formats with the current culture, whose negative sign may differ. */
  function DecimalText(n: int): (text: string)
    ensures n < 0 ==> |text| >= 2 && text[0] == '-' && IsDigits(text[1..]) && DigitsValue(text[1..]) == -n
    ensures n >= 0 ==> IsDigits(text) && DigitsValue(text) == n
    ensures n < 0 ==> text[1] != '0'
    ensures n >= 0 && |text| > 1 ==> text[0] != '0'
  {
    if n < 0 then
      var t := "-" + Digits(-n);
      assert t[1..] == Digits(-n);
      t
    else Digits(n)
  }

  predicate IsDigits(s: string)
  {
    |s| > 0 && forall i | 0 <= i < |s| :: '0' <= s[i] <= '9'
  }

  /** The number a string of decimal digits denotes, most significant first. */
  function DigitsValue(s: string): int
  {
    if |s| == 0 then 0 else DigitsValue(s[..|s| - 1]) * 10 + (s[|s| - 1] as int - '0' as int)
  }

  /** The decimal digits of `n`, most significant first. */
  function Digits(n: nat): (text: string)
    ensures IsDigits(text)
    ensures DigitsValue(text) == n
    ensures |text| > 1 ==> text[0] != '0'
    decreases n
  {
    var d := ['0' + (n % 10) as char];
    if n < 10 then
      assert d[..0] == [];
      d
    else
      var t := Digits(n / 10) + d;
      assert t[..|t| - 1] == Digits(n / 10);
      t
  }
}
