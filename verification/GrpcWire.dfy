/**
 Protocol Buffers wire format and gRPC framing (internal/grpcwire/frame.go), following the
 Protocol Buffers encoding guide ("Base 128 Varints", "Message Structure") and gRPC over
 HTTP/2 ("Length-Prefixed-Message").
 */
module GrpcWire {
  import opened ByteStrings

  datatype WireError =
    | VarintTooLong | VarintOverflow | VarintTruncated | FieldNumberZero | FieldNumberTooBig
    | Fixed64Truncated | Fixed32Truncated | LengthDelimTruncated | UnsupportedWireType
    | FrameHeaderTruncated | FrameBodyTruncated

  datatype Parsed<+T> = Ok(value: T, used: nat) | Err(error: WireError)

  // ---------------------------------------------------------------- bits

  function Pow2(k: nat): (p: nat)
    ensures p > 0
  {
    if k == 0 then 1 else 2 * Pow2(k - 1)
  }

  // Bitwise or, and, on numbers without a width.
  function BitOr(a: nat, b: nat): nat
    decreases a + b
  {
    if a == 0 && b == 0 then 0
    else (if a % 2 == 1 || b % 2 == 1 then 1 else 0) + 2 * BitOr(a / 2, b / 2)
  }

  function BitAnd(a: nat, b: nat): nat
    decreases a + b
  {
    if a == 0 || b == 0 then 0
    else (if a % 2 == 1 && b % 2 == 1 then 1 else 0) + 2 * BitAnd(a / 2, b / 2)
  }

  // The uint64 shift: bits beyond the 64th are lost.
  function Shl64(x: nat, shift: nat): nat {
    (x * Pow2(shift)) % Pow2(64)
  }

  lemma {:induction false} OrZero(b: nat)
    ensures BitOr(0, b) == b
  {
    if b > 0 {
      OrZero(b / 2);
    }
  }

  // Where the bits do not meet, or is plus.
  lemma {:induction false} OrIsPlus(v: nat, x: nat, s: nat)
    requires v < Pow2(s)
    ensures BitOr(v, x * Pow2(s)) == v + x * Pow2(s)
  {
    if s == 0 {
      OrZero(x);
    } else {
      var y := x * Pow2(s - 1);
      assert x * Pow2(s) == 2 * y;
      OrIsPlus(v / 2, x, s - 1);
      if v != 0 || y != 0 {
        assert (2 * y) / 2 == y && (2 * y) % 2 == 0;
      }
    }
  }

  // The low k bits, and the bit above them.
  function Low(v: nat, k: nat): nat {
    if k == 0 then 0 else v % 2 + 2 * Low(v / 2, k - 1)
  }

  function Bit(v: nat, k: nat): nat {
    if k == 0 then v % 2 else Bit(v / 2, k - 1)
  }

  lemma {:induction false} MaskIsLow(v: nat, k: nat)
    ensures BitAnd(v, Pow2(k) - 1) == Low(v, k)
    decreases k
  {
    if k > 0 {
      var m := Pow2(k - 1);
      MaskIsLow(v / 2, k - 1);
      assert (2 * m - 1) % 2 == 1 && (2 * m - 1) / 2 == m - 1;
      if v == 0 {
        MaskIsLow(0, k - 1);
      }
    }
  }

  lemma {:induction false} MaskIsBit(v: nat, k: nat)
    ensures BitAnd(v, Pow2(k)) == 0 <==> Bit(v, k) == 0
    decreases k
  {
    if v == 0 {
      if k > 0 {
        MaskIsBit(0, k - 1);
      }
    } else if k == 0 {
      assert BitAnd(v / 2, 0) == 0;
    } else {
      var m := Pow2(k - 1);
      assert (2 * m) % 2 == 0 && (2 * m) / 2 == m;
      MaskIsBit(v / 2, k - 1);
    }
  }

  lemma LowBits(b: byte)
    ensures BitAnd(b, 0x7F) == b % 128
  {
    assert Pow2(7) == 128;
    MaskIsLow(b, 7);
    SevenLow(b);
  }

  function Halved(v: nat, k: nat): nat {
    if k == 0 then v else Halved(v / 2, k - 1)
  }

  lemma Twice(m: nat, h: nat)
    ensures (2 * m) * h == 2 * (m * h)
  {
  }

  lemma {:induction false} LowAndHigh(v: nat, k: nat)
    ensures Low(v, k) < Pow2(k) && Low(v, k) + Pow2(k) * Halved(v, k) == v
    decreases k
  {
    if k > 0 {
      LowAndHigh(v / 2, k - 1);
      Twice(Pow2(k - 1), Halved(v / 2, k - 1));
    }
  }

  lemma SevenLow(b: byte)
    ensures Low(b, 7) == b % 128
  {
    assert Pow2(7) == 128;
    LowAndHigh(b, 7);
  }

  lemma HighBit(b: byte)
    ensures BitAnd(b, 0x80) == 0 <==> b < 128
  {
    assert Pow2(7) == 128;
    MaskIsBit(b, 7);
    SeventhBit(b);
  }

  lemma SeventhBit(b: byte)
    ensures Bit(b, 7) == 0 <==> b < 128
  {
    var b1 := b / 2;
    var b2 := b1 / 2;
    var b3 := b2 / 2;
    var b4 := b3 / 2;
    var b5 := b4 / 2;
    var b6 := b5 / 2;
    var b7 := b6 / 2;
    assert Bit(b5, 2) == Bit(b6, 1) == Bit(b7, 0);
    assert Bit(b3, 4) == Bit(b4, 3) == Bit(b5, 2);
    assert Bit(b1, 6) == Bit(b2, 5) == Bit(b3, 4);
    assert Bit(b, 7) == Bit(b1, 6);
  }

  // ---------------------------------------------------------------- varints

  const MAX_VARINT_BYTES := 10

  // What a varint's bytes denote: their low seven bits, least significant group first.
  function Groups(s: bytes): nat {
    if s == [] then 0 else s[0] % 128 + 128 * Groups(s[1..])
  }

  // The number of bytes with the continuation bit set that come first.
  function Continued(b: bytes): (n: nat)
    ensures n <= |b| && (forall i :: 0 <= i < n ==> b[i] >= 128) && (n < |b| ==> b[n] < 128)
  {
    if b == [] || b[0] < 128 then 0 else 1 + Continued(b[1..])
  }

  function ParseVarint(b: bytes): (r: Parsed<nat>)
    ensures r.Ok? ==> 0 < r.used <= |b| && r.used <= MAX_VARINT_BYTES
  {
    var n := Continued(b);
    if n < |b| && n < MAX_VARINT_BYTES && Groups(b[..n + 1]) < Pow2(64) then Ok(Groups(b[..n + 1]), n + 1)
    else if n < MAX_VARINT_BYTES - 1 then Err(VarintTruncated)
    else if |b| < MAX_VARINT_BYTES then Err(VarintTruncated)
    else Err(VarintOverflow)
  }

  lemma {:induction false} GroupsOfAppend(s: bytes, x: byte)
    ensures Groups(s + [x]) == Groups(s) + (x % 128) * Pow2(7 * |s|)
  {
    if s == [] {
      assert [] + [x] == [x] && [x][1..] == [];
    } else {
      var t := s[1..];
      assert (s + [x])[1..] == t + [x];
      GroupsOfAppend(t, x);
      Pow2Add(7, 7 * |t|);
      assert Pow2(7) == 128;
      assert 128 * ((x % 128) * Pow2(7 * |t|)) == (x % 128) * Pow2(7 * |s|);
    }
  }

  lemma {:induction false} Pow2Add(a: nat, b: nat)
    ensures Pow2(a + b) == Pow2(a) * Pow2(b)
  {
    if a > 0 {
      Pow2Add(a - 1, b);
    }
  }

  lemma {:induction false} GroupsBound(s: bytes)
    ensures Groups(s) < Pow2(7 * |s|)
  {
    if s != [] {
      GroupsBound(s[1..]);
      Pow2Add(7, 7 * |s[1..]|);
      assert Pow2(7) == 128;
    }
  }

  lemma TimesAtMost(x: nat, y: nat, p: nat)
    requires x <= y
    ensures x * p <= y * p
  {
  }

  // No group is shifted out of the 64 bits.
  lemma ShiftFits(g: nat, i: nat)
    requires i < MAX_VARINT_BYTES && g < 128
    requires i == MAX_VARINT_BYTES - 1 ==> g <= 1
    ensures Shl64(g, 7 * i) == g * Pow2(7 * i)
  {
    if i == MAX_VARINT_BYTES - 1 {
      Pow2Add(1, 63);
      assert Pow2(1) == 2;
      GroupBelow(g, 1, Pow2(63), Pow2(64));
    } else {
      Pow2Add(7, 7 * i);
      assert Pow2(7) == 128;
      Pow2Monotone(7 * i + 7, 64);
      GroupBelow(g, 127, Pow2(7 * i), Pow2(64));
    }
  }

  lemma GroupBelow(g: nat, most: nat, p: nat, limit: nat)
    requires g <= most && 0 < p && (most + 1) * p <= limit
    ensures (g * p) % limit == g * p
  {
    TimesAtMost(g, most, p);
    assert (most + 1) * p == most * p + p;
    SmallMod(g * p, limit);
  }

  lemma SmallMod(x: nat, limit: nat)
    requires x < limit
    ensures x % limit == x
  {
  }

  function JoinGroup(v: nat, x: byte, shift: nat): nat {
    BitOr(v, Shl64(BitAnd(x, 0x7F), shift))
  }

  // One turn of the loop: the new bits meet no bit already there.
  lemma JoinAppends(b: bytes, i: nat)
    requires i < |b| && i < MAX_VARINT_BYTES
    requires i == MAX_VARINT_BYTES - 1 ==> b[i] <= 1
    ensures JoinGroup(Groups(b[..i]), b[i], 7 * i) == Groups(b[..i + 1])
  {
    assert b[..i] + [b[i]] == b[..i + 1];
    GroupsBound(b[..i]);
    GroupsOfAppend(b[..i], b[i]);
    LowBits(b[i]);
    ShiftFits(b[i] % 128, i);
    OrIsPlus(Groups(b[..i]), b[i] % 128, 7 * i);
  }

  lemma {:induction false} Pow2Monotone(a: nat, b: nat)
    requires a <= b
    ensures Pow2(a) <= Pow2(b)
  {
    if a < b {
      Pow2Monotone(a, b - 1);
    }
  }

  lemma FitsInNine(s: bytes)
    requires |s| < MAX_VARINT_BYTES
    ensures Groups(s) < Pow2(64)
  {
    GroupsBound(s);
    Pow2Monotone(7 * |s|, 64);
  }

  // The tenth byte decides whether the value fits in 64 bits.
  lemma TenthFits(s: bytes, x: byte)
    requires |s| == MAX_VARINT_BYTES - 1
    ensures Groups(s + [x]) < Pow2(64) <==> x % 128 <= 1
  {
    GroupsOfAppend(s, x);
    GroupsBound(s);
    assert Pow2(64) == 2 * Pow2(63);
    if x % 128 <= 1 {
      TimesAtMost(x % 128, 1, Pow2(63));
    } else {
      TimesAtMost(2, x % 128, Pow2(63));
    }
  }

  lemma FitsInTen(b: bytes, n: nat)
    requires n < |b| && n < MAX_VARINT_BYTES
    ensures Groups(b[..n + 1]) < Pow2(64) <==> n < MAX_VARINT_BYTES - 1 || b[n] % 128 <= 1
  {
    if n < MAX_VARINT_BYTES - 1 {
      FitsInNine(b[..n + 1]);
    } else {
      assert b[..n + 1] == b[..n] + [b[n]];
      TenthFits(b[..n], b[n]);
    }
  }

  lemma {:induction false} ContinuedIs(b: bytes, n: nat)
    requires n <= |b| && (forall i :: 0 <= i < n ==> b[i] >= 128)
    ensures n <= Continued(b)
    ensures n < |b| && b[n] < 128 ==> Continued(b) == n
  {
    if n > 0 {
      ContinuedIs(b[1..], n - 1);
    }
  }

  lemma VarintOverflows(b: bytes)
    requires |b| >= MAX_VARINT_BYTES && (forall j :: 0 <= j < MAX_VARINT_BYTES - 1 ==> b[j] >= 128) && b[9] > 1
    ensures ParseVarint(b) == Err(VarintOverflow)
  {
    ContinuedIs(b, MAX_VARINT_BYTES - 1);
    FitsInTen(b, MAX_VARINT_BYTES - 1);
  }

  lemma VarintStops(b: bytes, i: nat)
    requires i < |b| && i < MAX_VARINT_BYTES && (forall j :: 0 <= j < i ==> b[j] >= 128)
    requires b[i] < 128 && !(i == MAX_VARINT_BYTES - 1 && b[i] > 1)
    ensures ParseVarint(b) == Ok(Groups(b[..i + 1]), i + 1)
  {
    ContinuedIs(b, i);
    FitsInTen(b, i);
  }

  // What the loop decides at byte i, all bytes before it continuing.
  lemma VarintAt(b: bytes, i: nat)
    requires i < |b| && i < MAX_VARINT_BYTES && forall j :: 0 <= j < i ==> b[j] >= 128
    ensures i == MAX_VARINT_BYTES - 1 && b[i] > 1 ==> ParseVarint(b) == Err(VarintOverflow)
    ensures !(i == MAX_VARINT_BYTES - 1 && b[i] > 1) && b[i] < 128 ==> ParseVarint(b) == Ok(Groups(b[..i + 1]), i + 1)
  {
    if i == MAX_VARINT_BYTES - 1 && b[i] > 1 {
      VarintOverflows(b);
    } else if b[i] < 128 {
      VarintStops(b, i);
    }
  }

  lemma VarintEnds(b: bytes)
    requires |b| < MAX_VARINT_BYTES && forall j :: 0 <= j < |b| ==> b[j] >= 128
    ensures ParseVarint(b) == Err(VarintTruncated)
  {
    ContinuedIs(b, |b|);
  }

  // The source's loop, in shifts, ors and masks. It never finds a varint too long: an input
  // that long has been refused at the tenth byte.
  method RunParseVarint(b: bytes) returns (r: Parsed<nat>)
    ensures r == ParseVarint(b)
    ensures r != Err(VarintTooLong)
  {
    var v: nat, shift: nat := 0, 0;
    assert b[..0] == [];
    for i := 0 to |b|
      invariant i < MAX_VARINT_BYTES && shift == 7 * i
      invariant forall j :: 0 <= j < i ==> b[j] >= 128
      invariant v == Groups(b[..i])
    {
      if i >= MAX_VARINT_BYTES {
        return Err(VarintTooLong);
      }
      VarintAt(b, i);
      if i == MAX_VARINT_BYTES - 1 && b[i] > 0x01 {
        return Err(VarintOverflow);
      }
      v := RunJoinGroup(b, i, v, shift);
      var last := IsLast(b[i]);
      if last {
        return Ok(v, i + 1);
      }
      shift := shift + 7;
    }
    VarintEnds(b);
    return Err(VarintTruncated);
  }

  method RunJoinGroup(b: bytes, i: nat, v: nat, shift: nat) returns (joined: nat)
    requires i < |b| && i < MAX_VARINT_BYTES && (i == MAX_VARINT_BYTES - 1 ==> b[i] <= 1)
    requires v == Groups(b[..i]) && shift == 7 * i
    ensures joined == Groups(b[..i + 1])
  {
    JoinAppends(b, i);
    return JoinGroup(v, b[i], shift);
  }

  // Whether the continuation bit is clear.
  method IsLast(b: byte) returns (last: bool)
    ensures last == (b < 128)
  {
    HighBit(b);
    return BitAnd(b, 0x80) == 0;
  }

  // A varint: every byte but the last continues, and the value fits in 64 bits.
  ghost predicate IsVarint(s: bytes) {
    && 1 <= |s| <= 10
    && (forall i :: 0 <= i < |s| - 1 ==> s[i] >= 128)
    && s[|s| - 1] < 128
    && Groups(s) < Pow2(64)
  }

  // Exactly the inputs that start with a varint are accepted, with its value and its length.
  lemma VarintAccepts(b: bytes, n: nat)
    requires n <= |b|
    ensures IsVarint(b[..n]) <==> ParseVarint(b) == Ok(Groups(b[..n]), n)
  {
    if IsVarint(b[..n]) {
      ContinuedIs(b, n - 1);
    }
  }

  lemma VarintReads(s: bytes, rest: bytes)
    requires IsVarint(s)
    ensures ParseVarint(s + rest) == Ok(Groups(s), |s|)
  {
    assert (s + rest)[..|s|] == s;
    VarintAccepts(s + rest, |s|);
  }

  lemma VarintRefusesShort(b: bytes)
    ensures ParseVarint(b) == Err(VarintTruncated) <==> |b| < MAX_VARINT_BYTES && (forall i :: 0 <= i < |b| ==> b[i] >= 128)
  {
    var n := Continued(b);
    if ParseVarint(b) == Err(VarintTruncated) {
      if n < |b| && n < MAX_VARINT_BYTES {
        FitsInTen(b, n);
      }
    } else if |b| < MAX_VARINT_BYTES && forall i :: 0 <= i < |b| ==> b[i] >= 128 {
      VarintEnds(b);
    }
  }

  lemma VarintRefusesLarge(b: bytes)
    ensures ParseVarint(b) == Err(VarintOverflow) <==>
            |b| >= MAX_VARINT_BYTES && (forall i :: 0 <= i < MAX_VARINT_BYTES - 1 ==> b[i] >= 128) && b[9] > 1
  {
    if ParseVarint(b) == Err(VarintOverflow) {
      if Continued(b) == MAX_VARINT_BYTES - 1 {
        FitsInTen(b, MAX_VARINT_BYTES - 1);
      }
    } else if |b| >= MAX_VARINT_BYTES && forall i :: 0 <= i < MAX_VARINT_BYTES - 1 ==> b[i] >= 128 {
      VarintAt(b, MAX_VARINT_BYTES - 1);
    }
  }

  // Refused as truncated: the input ended before a varint did. Otherwise the value is too big.
  lemma VarintRefuses(b: bytes)
    ensures ParseVarint(b) == Err(VarintTruncated) <==> |b| < 10 && (forall i :: 0 <= i < |b| ==> b[i] >= 128)
    ensures ParseVarint(b) == Err(VarintOverflow) <==> |b| >= 10 && (forall i :: 0 <= i < 9 ==> b[i] >= 128) && b[9] > 1
  {
    VarintRefusesShort(b);
    VarintRefusesLarge(b);
  }

  // The shortest varint of a number.
  function EncodeVarint(v: nat): (s: bytes)
    ensures s != []
  {
    if v < 128 then [v] else [v % 128 + 128] + EncodeVarint(v / 128)
  }

  lemma GroupsOfCons(x: byte, t: bytes)
    ensures Groups([x] + t) == x % 128 + 128 * Groups(t)
  {
    assert ([x] + t)[1..] == t;
  }

  lemma {:induction false} EncodeVarintValue(v: nat)
    ensures Groups(EncodeVarint(v)) == v
  {
    if v >= 128 {
      EncodeVarintValue(v / 128);
      GroupsOfCons(v % 128 + 128, EncodeVarint(v / 128));
    } else {
      GroupsOfCons(v, []);
      assert [v] + [] == [v];
    }
  }

  lemma {:induction false} EncodeVarintContinues(v: nat)
    ensures var s := EncodeVarint(v); (forall i :: 0 <= i < |s| - 1 ==> s[i] >= 128) && s[|s| - 1] < 128
  {
    if v >= 128 {
      EncodeVarintContinues(v / 128);
    }
  }

  // No byte string with the same value that ends where a varint would is shorter.
  lemma {:induction false} EncodeVarintShortest(s: bytes)
    requires s != []
    ensures |EncodeVarint(Groups(s))| <= |s|
  {
    if |s| > 1 {
      EncodeVarintShortest(s[1..]);
      var g := Groups(s[1..]);
      assert Groups(s) / 128 == g && Groups(s) % 128 == s[0] % 128;
    } else {
      assert s[1..] == [];
    }
  }

  lemma {:induction false} EncodeVarintLength(v: nat, k: nat)
    requires v < Pow2(7 * k) && k > 0
    ensures |EncodeVarint(v)| <= k
  {
    if v >= 128 {
      Pow2Add(7, 7 * (k - 1));
      assert Pow2(7) == 128;
      EncodeVarintLength(v / 128, k - 1);
    }
  }

  lemma EncodedIsVarint(v: nat)
    requires v < Pow2(64)
    ensures IsVarint(EncodeVarint(v)) && Groups(EncodeVarint(v)) == v
  {
    EncodeVarintValue(v);
    EncodeVarintContinues(v);
    Pow2Monotone(64, 70);
    EncodeVarintLength(v, MAX_VARINT_BYTES);
  }

  // Every uint64 comes back from its shortest encoding, whatever follows it.
  lemma VarintRoundTrip(v: nat, rest: bytes)
    requires v < Pow2(64)
    ensures ParseVarint(EncodeVarint(v) + rest) == Ok(v, |EncodeVarint(v)|)
  {
    EncodedIsVarint(v);
    VarintReads(EncodeVarint(v), rest);
  }
}
