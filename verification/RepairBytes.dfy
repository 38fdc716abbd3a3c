/**
  The number formats of a database file as repair/sqliterk_util.c reads them, against the formats of the
  document "SQLite Database File Format" (sections 1.6 and 2.1).
 */
module RepairBytes {

  import opened Common

  function Pow(base: nat, k: nat): (p: nat)
    ensures base > 0 ==> p > 0
  {
    if k == 0 then 1 else base * Pow(base, k - 1)
  }

  // ---------------------------------------------------------------------------------------------
  // Big-endian integers

  function Unsigned(s: seq<Byte>): nat {
    if s == [] then 0 else Unsigned(s[..|s| - 1]) * 256 + (s[|s| - 1] as nat)
  }

  /** The two's-complement value. */
  function Signed(s: seq<Byte>): int {
    if s != [] && s[0] >= 128 then (Unsigned(s) as int) - Pow(256, |s|) else Unsigned(s)
  }

  /** The low k bytes of v. */
  function BigEndian(v: nat, k: nat): (s: seq<Byte>)
    ensures |s| == k
  {
    if k == 0 then [] else BigEndian(v / 256, k - 1) + [v % 256]
  }

  function EncodeInt(v: int, k: nat): (s: seq<Byte>)
    requires 0 <= v + Pow(256, k)
    ensures |s| == k
  {
    BigEndian(if v < 0 then v + (Pow(256, k) as int) else v, k)
  }

  lemma {:induction false} UnsignedOfBigEndian(v: nat, k: nat)
    requires v < Pow(256, k)
    ensures Unsigned(BigEndian(v, k)) == v
  {
    if k > 0 {
      UnsignedOfBigEndian(v / 256, k - 1);
      assert BigEndian(v, k)[..k - 1] == BigEndian(v / 256, k - 1);
    }
  }

  lemma {:induction false} BigEndianOfUnsigned(s: seq<Byte>)
    ensures Unsigned(s) < Pow(256, |s|) && BigEndian(Unsigned(s), |s|) == s
  {
    if s != [] {
      BigEndianOfUnsigned(s[..|s| - 1]);
      assert s == s[..|s| - 1] + [s[|s| - 1]];
    }
  }

  /** The first byte holds the top eight bits. */
  lemma {:induction false} FirstByte(s: seq<Byte>)
    requires s != []
    ensures var b: int := s[0]; b * Pow(256, |s| - 1) <= Unsigned(s) < (b + 1) * Pow(256, |s| - 1)
  {
    if |s| == 1 {
      Unsigned1(s);
    } else {
      FirstByte(s[..|s| - 1]);
      Shifted(s[0], Pow(256, |s| - 2), Unsigned(s[..|s| - 1]), s[|s| - 1]);
    }
  }

  lemma Shifted(b: int, p: int, u: int, c: int)
    requires b * p <= u < (b + 1) * p && 0 <= c < 256
    ensures b * (256 * p) <= u * 256 + c < (b + 1) * (256 * p)
  {
    assert b * (256 * p) == 256 * (b * p) && (b + 1) * (256 * p) == 256 * ((b + 1) * p);
  }

  /** A number of k bytes is written so that its signed value is the number. */
  lemma SignedOfEncodeInt(v: int, k: nat)
    requires k > 0 && -(128 * Pow(256, k - 1)) <= v < 128 * Pow(256, k - 1)
    ensures Signed(EncodeInt(v, k)) == v
  {
    var p := Pow(256, k - 1);
    var u := if v < 0 then v + 256 * p else v;
    var s := BigEndian(u, k);
    UnsignedOfBigEndian(u, k);
    FirstByte(s);
    if v < 0 && s[0] < 128 { Times((s[0] as int) + 1, 128, p); }
    if v >= 0 && s[0] >= 128 { Times(128, s[0], p); }
  }

  lemma Times(a: int, b: int, p: nat)
    requires a <= b
    ensures a * p <= b * p
  {
    assert (b - a) * p >= 0;
  }

  /** int8_t */
  function Int8(b: int): int {
    if b >= 128 then b - 256 else b
  }

  datatype IntResult = Int(value: int) | IntMisuse | IntOutside

  /** sqliterkParseInt64; IntOutside if it reads outside the buffer. */
  function ParseInt64(data: seq<Byte>, offset: int, length: int): (r: IntResult)
    ensures r.IntMisuse? <==> length !in {1, 2, 3, 4, 6, 8}
    ensures r.Int? ==> 0 <= offset && offset + length <= |data| && r.value == Signed(data[offset..offset + length])
    ensures r.IntOutside? ==> offset < 0 || offset + length > |data|
  {
    if length !in {1, 2, 3, 4, 6, 8} then IntMisuse
    else if offset < 0 || offset + length > |data| then IntOutside
    else
      SignedIs(data[offset..offset + length]);
      var p: seq<int> := data[offset..offset + length];
      match length
      case 1 => Int(Int8(p[0]))
      case 2 => Int(Int8(p[0]) * 256 + p[1])
      case 3 => Int(Int8(p[0]) * 65536 + p[1] * 256 + p[2])
      case 4 => Int(Int8(p[0]) * 16777216 + p[1] * 65536 + p[2] * 256 + p[3])
      case 6 => Int((Int8(p[0]) * 256 + p[1]) * 4294967296 + (p[2] * 16777216 + p[3] * 65536 + p[4] * 256 + p[5]))
      case 8 => Int((Int8(p[0]) * 16777216 + p[1] * 65536 + p[2] * 256 + p[3]) * 4294967296
                    + (p[4] * 16777216 + p[5] * 65536 + p[6] * 256 + p[7]))
  }

  /** The first k bytes carry the sign. */
  lemma {:induction false} SignedSplit(s: seq<Byte>, k: nat)
    requires 0 < k <= |s|
    ensures Signed(s) == Signed(s[..k]) * Pow(256, |s| - k) + Unsigned(s[k..])
    decreases |s|
  {
    if k == |s| {
      assert s[..k] == s && s[k..] == [];
    } else {
      var front := s[..|s| - 1];
      SignedSplit(front, k);
      assert s[k..][..|s| - k - 1] == front[k..] && front[..k] == s[..k];
      var p, v := Pow(256, |s| - k - 1), Signed(s[..k]);
      assert v * (256 * p) == 256 * (v * p);
    }
  }

  lemma Unsigned1(s: seq<Byte>)
    requires |s| == 1
    ensures Unsigned(s) == s[0]
  {
    assert s[..0] == [];
  }

  lemma Unsigned2(s: seq<Byte>)
    requires |s| == 2
    ensures var b: seq<int> := s; Unsigned(s) == b[0] * 256 + b[1]
  {
    Unsigned1(s[..1]);
  }

  lemma Unsigned3(s: seq<Byte>)
    requires |s| == 3
    ensures var b: seq<int> := s; Unsigned(s) == b[0] * 65536 + b[1] * 256 + b[2]
  {
    Unsigned2(s[..2]);
  }

  lemma Unsigned4(s: seq<Byte>)
    requires |s| == 4
    ensures var b: seq<int> := s; Unsigned(s) == b[0] * 16777216 + b[1] * 65536 + b[2] * 256 + b[3]
  {
    Unsigned3(s[..3]);
  }

  lemma Signed1(s: seq<Byte>)
    requires |s| == 1
    ensures Signed(s) == Int8(s[0])
  {
    Unsigned1(s);
    assert Pow(256, 1) == 256 * Pow(256, 0);
  }

  lemma Signed2(s: seq<Byte>)
    requires |s| == 2
    ensures var b: seq<int> := s; Signed(s) == Int8(b[0]) * 256 + b[1]
  {
    SignedSplit(s, 1);
    Signed1(s[..1]);
    Unsigned1(s[1..]);
    assert Pow(256, 1) == 256 * Pow(256, 0);
  }

  lemma Signed3(s: seq<Byte>)
    requires |s| == 3
    ensures var b: seq<int> := s; Signed(s) == Int8(b[0]) * 65536 + b[1] * 256 + b[2]
  {
    SignedSplit(s, 1);
    Signed1(s[..1]);
    Unsigned2(s[1..]);
    Powers();
  }

  lemma Signed4(s: seq<Byte>)
    requires |s| == 4
    ensures var b: seq<int> := s; Signed(s) == Int8(b[0]) * 16777216 + b[1] * 65536 + b[2] * 256 + b[3]
  {
    SignedSplit(s, 1);
    Signed1(s[..1]);
    Unsigned3(s[1..]);
    Powers();
  }

  lemma Powers()
    ensures Pow(256, 2) == 65536 && Pow(256, 3) == 16777216 && Pow(256, 4) == 4294967296
  {
  }

  /** The expressions of sqliterkParseInt64. */
  lemma SignedIs(s: seq<Byte>)
    requires |s| in {1, 2, 3, 4, 6, 8}
    ensures var p: seq<int> := s;
            && (|s| == 1 ==> Signed(s) == Int8(p[0]))
            && (|s| == 2 ==> Signed(s) == Int8(p[0]) * 256 + p[1])
            && (|s| == 3 ==> Signed(s) == Int8(p[0]) * 65536 + p[1] * 256 + p[2])
            && (|s| == 4 ==> Signed(s) == Int8(p[0]) * 16777216 + p[1] * 65536 + p[2] * 256 + p[3])
            && (|s| == 6 ==>
                  Signed(s) == (Int8(p[0]) * 256 + p[1]) * 4294967296
                               + (p[2] * 16777216 + p[3] * 65536 + p[4] * 256 + p[5]))
            && (|s| == 8 ==> Signed(s) == (Int8(p[0]) * 16777216 + p[1] * 65536 + p[2] * 256 + p[3]) * 4294967296
                                          + (p[4] * 16777216 + p[5] * 65536 + p[6] * 256 + p[7]))
  {
    hide Signed, Unsigned, Pow;
    match |s|
    case 1 => Signed1(s);
    case 2 => Signed2(s);
    case 3 => Signed3(s);
    case 4 => Signed4(s);
    case 6 => SignedSplit(s, 2); Signed2(s[..2]); Unsigned4(s[2..]); Powers();
    case 8 => SignedSplit(s, 4); Signed4(s[..4]); Unsigned4(s[4..]); Powers();
  }

  // ---------------------------------------------------------------------------------------------
  // Varints

  /** w in base 128, every byte flagged as not the last; k digits. */
  function Flagged(w: nat, k: nat): (s: seq<Byte>)
    ensures |s| == k && forall i :: 0 <= i < k ==> s[i] >= 128
  {
    if k == 0 then [] else Flagged(w / 128, k - 1) + [w % 128 + 128]
  }

  /** The number of base-128 digits of w. */
  function Digits128(w: nat): nat {
    if w == 0 then 0 else Digits128(w / 128) + 1
  }

  /** A number below 2^64 as a varint: up to eight digits, or eight digits and a full ninth byte. */
  function Varint(v: nat): (s: seq<Byte>)
    ensures |s| > 0
  {
    if v < Pow(128, 8) then Flagged(v / 128, Digits128(v / 128)) + [v % 128]
    else Flagged(v / 256, 8) + [v % 256]
  }

  /** The variable `out` of the loop after the flagged bytes of s. */
  function Accumulated(s: seq<Byte>): nat {
    if s == [] then 0 else (Accumulated(s[..|s| - 1]) + (s[|s| - 1] as nat) % 128) * 128
  }

  /** How many bytes from `at` on are flagged, at most k of them. */
  function FlaggedRun(data: seq<Byte>, at: nat, k: nat): (n: nat)
    ensures n <= k && (at + n <= |data| || n == 0)
    ensures n < k && at + n < |data| ==> data[at + n] < 128
    ensures forall i :: at <= i < at + n ==> data[i] >= 128
    decreases k
  {
    if k == 0 || at >= |data| || data[at] < 128 then 0 else FlaggedRun(data, at + 1, k - 1) + 1
  }

  datatype VarintResult = Number(length: nat, value: nat) | VarintDamaged | VarintOutside

  /** What sqliterkParseVarint64 finds at `offset`; VarintOutside if it reads outside the buffer. */
  function ParseVarint(data: seq<Byte>, offset: nat): (r: VarintResult)
    ensures r.Number? ==> 0 < r.length <= 9 && offset + r.length <= |data|
  {
    var n := FlaggedRun(data, offset, 9);
    if n == 9 then VarintDamaged
    else if offset + n >= |data| then VarintOutside
    else Number(n + 1, Accumulated(data[offset..offset + n]) + (data[offset + n] as nat))
  }

  lemma {:induction false} FlaggedRunIs(data: seq<Byte>, at: nat, k: nat, n: nat)
    requires n <= k && at + n <= |data| && (forall i :: at <= i < at + n ==> data[i] >= 128)
    requires n < k ==> at + n == |data| || data[at + n] < 128
    ensures FlaggedRun(data, at, k) == n
    decreases n
  {
    if n > 0 { FlaggedRunIs(data, at + 1, k - 1, n - 1); }
  }

  /** At most eight flagged bytes keep `out` within a signed 64-bit integer. */
  lemma {:induction false} AccumulatedBound(s: seq<Byte>)
    ensures Accumulated(s) + 127 < Pow(128, |s| + 1)
  {
    if s == [] {
      assert Pow(128, 1) == 128 * Pow(128, 0);
    } else {
      AccumulatedBound(s[..|s| - 1]);
    }
  }

  /** sqliterkParseVarint64 */
  method ParseVarint64(data: seq<Byte>, offset: nat) returns (r: VarintResult)
    ensures r == ParseVarint(data, offset)
    ensures r.Number? ==> r.value < Pow(128, 9)
  {
    hide FlaggedRun, Pow;
    var out: nat := 0;
    var i: nat := 0;
    while offset + i < |data| && data[offset + i] >= 128
      invariant i < 9 && (offset + i <= |data| || i == 0)
      invariant forall k :: offset <= k < offset + i ==> data[k] >= 128
      invariant i > 0 ==> out == Accumulated(data[offset..offset + i])
      invariant i == 0 ==> out == 0
      decreases 9 - i
    {
      assert data[offset..offset + i + 1][..i] == data[offset..offset + i];
      out := out + (data[offset + i] as nat) % 128;
      out := out * 128;
      i := i + 1;
      if i >= 9 {
        FlaggedRunIs(data, offset, 9, 9);
        return VarintDamaged;
      }
    }
    if offset + i >= |data| {
      if offset <= |data| { FlaggedRunIs(data, offset, 9, i); }
      return VarintOutside;
    }
    FlaggedRunIs(data, offset, 9, i);
    AccumulatedBound(data[offset..offset + i]);
    PowMonotone(i + 1, 9);
    return Number(i + 1, out + (data[offset + i] as nat));
  }

  lemma {:induction false} PowMonotone(a: nat, b: nat)
    requires a <= b
    ensures Pow(128, a) <= Pow(128, b)
  {
    if a < b { PowMonotone(a, b - 1); }
  }

  lemma AccumulatedStep(s: seq<Byte>, b: Byte)
    ensures Accumulated(s + [b]) == (Accumulated(s) + (b as nat) % 128) * 128
  {
    assert (s + [b])[..|s|] == s;
  }

  lemma {:induction false} AccumulatedOfFlagged(w: nat, k: nat)
    requires w < Pow(128, k)
    ensures Accumulated(Flagged(w, k)) == w * 128
  {
    if k > 0 {
      hide Accumulated;
      AccumulatedOfFlagged(w / 128, k - 1);
      AccumulatedStep(Flagged(w / 128, k - 1), w % 128 + 128);
      assert (w % 128 + 128) % 128 == w % 128;
    }
  }

  lemma {:induction false} Digits128Bound(w: nat, k: nat)
    requires w < Pow(128, k)
    ensures Digits128(w) <= k && w < Pow(128, Digits128(w))
  {
    if w > 0 { Digits128Bound(w / 128, k - 1); }
  }

  /** What is parsed where flagged digits of w are followed by one more byte. */
  lemma ParsesFlagged(pre: seq<Byte>, w: nat, k: nat, last: Byte, post: seq<Byte>)
    requires w < Pow(128, k) && k <= 8 && (last < 128 || k == 8)
    ensures ParseVarint(pre + (Flagged(w, k) + [last]) + post, |pre|)
         == if last < 128 then Number(k + 1, w * 128 + (last as nat)) else VarintDamaged
  {
    hide FlaggedRun, Pow, Flagged, Accumulated;
    var data := pre + (Flagged(w, k) + [last]) + post;
    assert data[|pre|..|pre| + k] == Flagged(w, k);
    forall i | |pre| <= i < |pre| + k ensures data[i] >= 128 { assert data[i] == Flagged(w, k)[i - |pre|]; }
    assert data[|pre| + k] == last;
    if last < 128 {
      FlaggedRunIs(data, |pre|, 9, k);
      AccumulatedOfFlagged(w, k);
    } else {
      FlaggedRunIs(data, |pre|, 9, 9);
    }
  }

  /** A varint is read back exactly if the number is below 2^56. */
  lemma VarintRoundTrip(pre: seq<Byte>, v: nat, post: seq<Byte>)
    requires v < 256 * Pow(128, 8)
    ensures ParseVarint(pre + Varint(v) + post, |pre|) == Number(|Varint(v)|, v) <==> v < Pow(128, 8)
  {
    if v < Pow(128, 8) {
      Digits128Bound(v / 128, 7);
      ParsesFlagged(pre, v / 128, Digits128(v / 128), v % 128, post);
    } else {
      assert Pow(128, 8) > 0;
      ParsesFlagged(pre, v / 256, 8, v % 256, post);
    }
  }

  /** From 2^56 on a number is read as half of what it is, more or less, or taken for damage. */
  lemma LongVarintIsMisread()
    ensures ParseVarint(Varint(Pow(128, 8)), 0) == Number(9, Pow(128, 8) / 2)
    ensures ParseVarint(Varint(Pow(128, 8) + 128), 0) == VarintDamaged
  {
    hide ParseVarint, Varint, Pow;
    var q := EighthPower();
    MisreadAt(q, 0);
    MisreadAt(q, 128);
  }

  lemma EighthPower() returns (q: nat)
    ensures Pow(128, 8) == 256 * q && q < Pow(128, 8)
  {
    q := 64 * Pow(128, 6);
  }

  lemma MisreadAt(q: nat, last: Byte)
    requires Pow(128, 8) == 256 * q && q < Pow(128, 8)
    ensures ParseVarint(Varint(256 * q + last), 0) ==
      if last < 128 then Number(9, q * 128 + (last as nat)) else VarintDamaged
  {
    hide Pow, ParseVarint;
    ParsesFlagged([], q, 8, last, []);
    assert [] + (Flagged(q, 8) + [last]) + [] == Flagged(q, 8) + [last];
    var v := 256 * q + last;
    assert v / 256 == q && v % 256 == last;
  }
}
