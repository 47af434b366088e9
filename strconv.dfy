/**
 * Command-line arguments name keys in decimal: `strconv.Atoi` parses them and
 * `uint64(key)` reinterprets the signed result as an unsigned key number.
 * Listings print keys with `%d`, which is `Decimal` here. The check prompt
 * builds its option values with `strconv.Itoa` and takes them apart again
 * with `strings.Split(s, ",")`.
 */
module Strconv {
  import opened Wrappers
  import opened Keys

  const MinInt64: int := -0x8000_0000_0000_0000
  const MaxInt64: int := 0x7FFF_FFFF_FFFF_FFFF

  /** Go's `int` on a 64-bit platform. */
  type int64 = n: int | MinInt64 <= n <= MaxInt64

  predicate IsDigit(c: char)
  {
    '0' <= c <= '9'
  }

  predicate AllDigits(s: string)
  {
    forall i :: 0 <= i < |s| ==> IsDigit(s[i])
  }

  function DigitValue(c: char): nat
    requires IsDigit(c)
  {
    c as int - '0' as int
  }

  /** The value of a string of decimal digits, most significant first. */
  function DigitsValue(s: string): nat
    requires AllDigits(s)
  {
    if s == [] then 0 else DigitsValue(s[..|s| - 1]) * 10 + DigitValue(s[|s| - 1])
  }

  /**
   * `strconv.Atoi` on a 64-bit platform: an optional `+` or `-`, then one or
   * more decimal digits (no underscores, no spaces), and a value that fits
   * an int64; anything else is an error.
   */
  function Atoi(s: string): Option<int64>
  {
    var signed := |s| > 0 && (s[0] == '+' || s[0] == '-');
    var digits := if signed then s[1..] else s;
    if digits == [] || !AllDigits(digits) then None
    else
      var m: int := DigitsValue(digits);
      var n: int := if signed && s[0] == '-' then -m else m;
      if MinInt64 <= n <= MaxInt64 then Some(n) else None
  }

  /** Go's conversion `uint64(n)` of an int64: two's complement reinterpretation. */
  function ToUint64(n: int64): (u: uint64)
    ensures 0 <= n ==> u == n
    ensures n < 0 ==> u == n + MaxUint64 + 1
  {
    n % (MaxUint64 + 1)
  }

  /** The key an argument that parsed to n addresses: `itob(uint64(n))`. */
  function KeyOf(n: int64): (k: Key)
    ensures |k| == 8
  {
    Itob(ToUint64(n))
  }

  /** `%d` / `strconv.Itoa` of a key number. */
  function Decimal(n: nat): (s: string)
    ensures |s| > 0 && AllDigits(s)
  {
    var last := ['0' + (n % 10) as char];
    if n < 10 then last else Decimal(n / 10) + last
  }

  lemma {:induction false} DecimalValue(n: nat)
    ensures DigitsValue(Decimal(n)) == n
  {
    var s := Decimal(n);
    if n >= 10 {
      assert s[..|s| - 1] == Decimal(n / 10);
      DecimalValue(n / 10);
    }
  }

  /**
   * The number a listing prints for a key, given back as an argument,
   * addresses that same key, for every key up to the int64 maximum.
   */
  lemma ListedKeyRoundTrip(k: uint64)
    requires k <= MaxInt64
    ensures Atoi(Decimal(k)) == Some(k)
    ensures KeyOf(k) == Itob(k)
  {
    DecimalValue(k);
  }

  /** Keys above the int64 maximum can only be named by the negative number that wraps onto them. */
  lemma HighKeysNeedNegativeArguments(k: uint64)
    requires k > MaxInt64
    ensures Atoi(Decimal(k)) == None
    ensures KeyOf(k - MaxUint64 - 1) == Itob(k)
    ensures forall n: int64 :: KeyOf(n) == Itob(k) ==> n == k - MaxUint64 - 1
  {
    DecimalValue(k);
    forall n: int64 | KeyOf(n) == Itob(k)
      ensures n == k - MaxUint64 - 1
    {
      ItobInjective(ToUint64(n), k);
    }
  }

  /** Go's conversion `int(u)` of a uint64 on a 64-bit platform, which `uint64(...)` undoes. */
  function ToInt64(u: uint64): (n: int64)
    ensures ToUint64(n) == u
  {
    if u <= MaxInt64 then u else u - MaxUint64 - 1
  }

  /** `strconv.Itoa` on a 64-bit platform. */
  function Itoa(n: int64): string
  {
    if n < 0 then "-" + Decimal(-(n as int)) else Decimal(n)
  }

  /** `strconv.Atoi` reads back what `strconv.Itoa` writes, and the text has no comma. */
  lemma ItoaRoundTrip(n: int64)
    ensures Atoi(Itoa(n)) == Some(n)
    ensures ',' !in Itoa(n)
  {
    var m: nat := if n < 0 then -(n as int) else n;
    DecimalValue(m);
    var d := Decimal(m);
    assert IsDigit(d[0]);
    if n < 0 {
      assert Itoa(n)[1..] == d;
    }
  }

  /** The position of the first comma in s, if it has one. */
  function Comma(s: string): (r: Option<nat>)
    ensures r.None? <==> ',' !in s
    ensures r.Some? ==> r.value < |s| && s[r.value] == ',' && ',' !in s[..r.value]
  {
    if s == [] then None
    else if s[0] == ',' then Some(0)
    else match Comma(s[1..])
      case None => None
      case Some(i) =>
        assert s[..i + 1] == [s[0]] + s[1..][..i];
        Some(i + 1)
  }

  /** `strings.Split(s, ",")[0]`: the text before the first comma, or all of s when it has none. */
  function FieldOne(s: string): string
  {
    match Comma(s)
    case None => s
    case Some(i) => s[..i]
  }

  /**
   * `strings.Split(s, ",")[1]`, which exists only when s has a comma: the
   * text between the first comma and the next one, or the end.
   */
  function FieldTwo(s: string): Option<string>
  {
    match Comma(s)
    case None => None
    case Some(i) => Some(FieldOne(s[i + 1..]))
  }

  /** Everything after the first comma, when there is one. */
  function AfterComma(s: string): Option<string>
  {
    match Comma(s)
    case None => None
    case Some(i) => Some(s[i + 1..])
  }

  /**
   * Split at the first comma: for a head with no comma, `head,tail` gives
   * back the head as the first field and the whole tail after the comma,
   * but only the tail's own first field as the second field.
   */
  lemma SplitAtComma(head: string, tail: string)
    requires ',' !in head
    ensures FieldOne(head + "," + tail) == head
    ensures FieldTwo(head + "," + tail) == Some(FieldOne(tail))
    ensures AfterComma(head + "," + tail) == Some(tail)
    ensures ',' !in FieldOne(tail)
    ensures FieldOne(tail) == tail <==> ',' !in tail
  {
    var s := head + "," + tail;
    assert s[|head|] == ',';
    assert s[..|head|] == head;
    assert s[|head| + 1..] == tail;
    match Comma(tail)
    case None =>
    case Some(j) =>
      assert tail[..j] != tail;
  }
}
