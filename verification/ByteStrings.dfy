/** Byte strings: Go's strings and []byte, their order, and decimal numerals (package strconv). */
module ByteStrings {

  type byte = b: int | 0 <= b < 256
  type bytes = seq<byte>

  datatype Option<+T> = None | Some(value: T)

  // bytes.Compare, and Go's < on strings.
  function Compare(a: bytes, b: bytes): (r: int)
    ensures r == 0 <==> a == b
    ensures -1 <= r <= 1
  {
    if a == [] && b == [] then 0
    else if a == [] then -1
    else if b == [] then 1
    else if a[0] < b[0] then -1
    else if a[0] > b[0] then 1
    else
      assert a == [a[0]] + a[1..] && b == [b[0]] + b[1..];
      Compare(a[1..], b[1..])
  }

  lemma {:induction false} CompareFlips(a: bytes, b: bytes)
    ensures Compare(a, b) == -Compare(b, a)
  {
    if a != [] && b != [] && a[0] == b[0] {
      CompareFlips(a[1..], b[1..]);
    }
  }

  // The order of the first bytes that differ, a string coming before its extensions.
  lemma {:induction false} CompareIs(a: bytes, b: bytes)
    ensures Compare(a, b) < 0 <==> Precedes(a, b)
  {
    if a != [] && b != [] && a[0] == b[0] {
      CompareIs(a[1..], b[1..]);
      if Precedes(a[1..], b[1..]) {
        var n: nat :| DiffersAt(a[1..], b[1..], n);
        assert DiffersAt(a, b, n + 1);
      }
      if Precedes(a, b) {
        var n: nat :| DiffersAt(a, b, n);
        assert n > 0 && DiffersAt(a[1..], b[1..], n - 1);
      }
    } else if b != [] && (a == [] || a[0] < b[0]) {
      assert DiffersAt(a, b, 0);
    }
  }

  ghost predicate Precedes(a: bytes, b: bytes) {
    exists n: nat :: DiffersAt(a, b, n)
  }

  ghost predicate DiffersAt(a: bytes, b: bytes, n: nat) {
    && n <= |a| && n < |b| && (forall i :: 0 <= i < n ==> a[i] == b[i])
    && (n < |a| ==> a[n] < b[n])
  }

  lemma {:induction false} CompareTransitive(a: bytes, b: bytes, c: bytes)
    requires Compare(a, b) <= 0 && Compare(b, c) <= 0
    ensures Compare(a, c) <= 0
  {
    if a != [] && b != [] && c != [] && a[0] == b[0] == c[0] {
      CompareTransitive(a[1..], b[1..], c[1..]);
    }
  }

  // ---------------------------------------------------------------- decimal numerals

  const ZERO: byte := 48
  const NINE: byte := 57
  const MINUS: byte := 45
  const PLUS: byte := 43

  predicate AllDigits(s: bytes) {
    forall i :: 0 <= i < |s| ==> ZERO <= s[i] <= NINE
  }

  // strconv.Itoa on a non-negative number.
  function Decimal(n: nat): (s: bytes)
    ensures s != [] && AllDigits(s)
  {
    if n < 10 then [ZERO + n] else Decimal(n / 10) + [ZERO + n % 10]
  }

  // The number a digit string denotes; leading zeros allowed.
  function Value(s: bytes): nat
    requires AllDigits(s)
  {
    if s == [] then 0 else 10 * Value(s[..|s| - 1]) + (s[|s| - 1] - ZERO)
  }

  lemma {:induction false} ValueOfDecimal(n: nat)
    ensures Value(Decimal(n)) == n
  {
    if n >= 10 {
      ValueOfDecimal(n / 10);
      assert Decimal(n)[..|Decimal(n)| - 1] == Decimal(n / 10);
    }
  }

  function Pow10(k: nat): nat {
    if k == 0 then 1 else 10 * Pow10(k - 1)
  }

  lemma {:induction false} DecimalLength(n: nat, k: nat)
    requires k > 0 && n < Pow10(k)
    ensures |Decimal(n)| <= k
  {
    if n >= 10 {
      assert k > 1;
      DecimalLength(n / 10, k - 1);
    }
  }

  const MIN_INT64 := -0x8000_0000_0000_0000
  const MAX_INT64 := 0x7fff_ffff_ffff_ffff

  // strconv.FormatInt(n, 10)
  function FormatInt(n: int): bytes {
    if n < 0 then [MINUS] + Decimal(-n) else Decimal(n)
  }

  // strconv.ParseInt(s, 10, 64): an optional sign, digits, and the range of int64.
  function ParseInt(s: bytes): Option<int> {
    var signed := s != [] && (s[0] == MINUS || s[0] == PLUS);
    var digits := if signed then s[1..] else s;
    if digits == [] || !AllDigits(digits) then None
    else
      var m: int := Value(digits);
      var n := if signed && s[0] == MINUS then -m else m;
      if MIN_INT64 <= n <= MAX_INT64 then Some(n) else None
  }

  lemma ParseDigits(digits: bytes)
    requires digits != [] && AllDigits(digits) && Value(digits) <= MAX_INT64
    ensures ParseInt(digits) == Some(Value(digits))
  {
    assert ZERO <= digits[0];
  }

  lemma ParseNegated(digits: bytes)
    requires digits != [] && AllDigits(digits) && -(Value(digits) as int) >= MIN_INT64
    ensures ParseInt([MINUS] + digits) == Some(-(Value(digits) as int))
  {
    assert ([MINUS] + digits)[1..] == digits;
  }

  lemma ParseOfNatural(n: nat)
    requires n <= MAX_INT64
    ensures ParseInt(Decimal(n)) == Some(n)
  {
    ValueOfDecimal(n);
    ParseDigits(Decimal(n));
  }

  lemma ParseOfNegative(n: nat)
    requires n <= MAX_INT64 + 1
    ensures ParseInt([MINUS] + Decimal(n)) == Some(-(n as int))
  {
    ValueOfDecimal(n);
    ParseNegated(Decimal(n));
  }

  lemma ParseOfFormat(n: int)
    requires MIN_INT64 <= n <= MAX_INT64
    ensures ParseInt(FormatInt(n)) == Some(n)
  {
    if n < 0 {
      ParseOfNegative(-n);
    } else {
      ParseOfNatural(n);
    }
  }

  // ---------------------------------------------------------------- what numerals are

  // Decimal digits that denote n, leading zeros allowed.
  ghost predicate Numeral(s: bytes, n: nat) {
    && s != [] && 48 <= s[|s| - 1] <= 57
    && if |s| == 1 then n == s[0] - 48 else n % 10 == s[|s| - 1] - 48 && Numeral(s[..|s| - 1], n / 10)
  }

  lemma {:induction false} NumeralIs(s: bytes, n: nat)
    ensures Numeral(s, n) <==> s != [] && AllDigits(s) && Value(s) == n
  {
    if |s| > 1 {
      var t, d := s[..|s| - 1], s[|s| - 1];
      assert s == t + [d];
      NumeralIs(t, n / 10);
    } else if |s| == 1 {
      assert s[..0] == [] && Value(s[..0]) == 0;
    }
  }

  // An optional sign and a numeral, together an int64.
  ghost predicate IntText(s: bytes, n: int) {
    && -0x8000_0000_0000_0000 <= n <= 0x7fff_ffff_ffff_ffff && s != []
    && if s[0] == 45 then n <= 0 && Numeral(s[1..], -n)
       else if s[0] == 43 then n >= 0 && Numeral(s[1..], n)
       else n >= 0 && Numeral(s, n)
  }

  lemma ParseIntIs(s: bytes, n: int)
    ensures ParseInt(s) == Some(n) <==> IntText(s, n)
  {
    if s != [] {
      NumeralIs(s[1..], if n < 0 then -n else n);
      NumeralIs(s, if n < 0 then -n else n);
    }
  }

  // The numeral written is the only one without leading zeros.
  lemma {:induction false} DecimalIs(s: bytes, n: nat)
    ensures s == Decimal(n) <==> Numeral(s, n) && (s[0] != 48 || |s| == 1)
  {
    if n >= 10 {
      var t := if s == [] then [] else s[..|s| - 1];
      DecimalIs(t, n / 10);
      if |s| > 1 {
        assert s == t + [s[|s| - 1]] && s[0] == t[0];
      }
      if s == Decimal(n) {
        assert t == Decimal(n / 10);
      }
    } else if |s| > 1 && Numeral(s, n) {
      SmallNumeral(s[..|s| - 1]);
    }
  }

  lemma {:induction false} SmallNumeral(s: bytes)
    requires Numeral(s, 0)
    ensures s[0] == 48
  {
    if |s| > 1 {
      SmallNumeral(s[..|s| - 1]);
    }
  }
}
