/** Base 128 varints and fixed 64-bit words, as byte sequences and as the loops that write and read
    them ("Base 128 Varints", Protocol Buffers Encoding). */
module Varints {
  import opened Arithmetic
  import opened Messages

  datatype Error =
    | IntOverflow
    | UnexpectedEOF
    | InvalidLength
    | UnexpectedEndOfGroup
    | EndGroupOutsideGroup
    | IllegalTag
    | WrongWireType
    | IllegalWireType

  datatype Result<+T> = Ok(value: T) | Err(error: Error) {
    predicate IsFailure() { Err? }
    function PropagateFailure<U>(): Result<U>
      requires Err?
    {
      Err(error)
    }
    function Extract(): T
      requires Ok?
    {
      value
    }
  }

  // ---------- sequences ----------

  function EncodeVarint(v: nat): (s: seq<byte>)
    ensures 0 < |s|
  {
    if v < 128 then [v] else [v % 128 + 128] + EncodeVarint(v / 128)
  }

  /** The groups of seven bits from position `i` on, least significant first; the value is not yet
      cut to the width of a field. `shift` counts the bits already read. */
  function DecodeVarint(data: seq<byte>, i: nat, shift: nat): (r: Result<(nat, nat)>)
    ensures r.Ok? ==> i < r.value.1 <= |data|
    decreases 64 - shift
  {
    if 64 <= shift then Err(IntOverflow)
    else if |data| <= i then Err(UnexpectedEOF)
    else if data[i] < 128 then Ok((data[i], i + 1))
    else
      var (v, next) :- DecodeVarint(data, i + 1, shift + 7);
      Ok((data[i] - 128 + 128 * v, next))
  }

  function Pow2(n: nat): (p: int)
    ensures 0 < p
  {
    if n == 0 then 1 else 2 * Pow2(n - 1)
  }

  lemma Pow2PlusSeven(n: nat)
    ensures Pow2(n + 7) == 128 * Pow2(n)
  {
    assert Pow2(n + 7) == 2 * Pow2(n + 6) == 4 * Pow2(n + 5) == 8 * Pow2(n + 4);
    assert Pow2(n + 4) == 2 * Pow2(n + 3) == 4 * Pow2(n + 2) == 8 * Pow2(n + 1) == 16 * Pow2(n);
  }

  lemma {:induction false} Pow2Monotone(m: nat, n: nat)
    requires m <= n
    ensures Pow2(m) <= Pow2(n)
    decreases n
  {
    if m < n {
      Pow2Monotone(m, n - 1);
    }
  }

  lemma Pow2Sixty4()
    ensures Pow2(64) == TWO_TO_THE_64
  {
    hide Pow2;
    Pow2Steps();
    Pow2PlusSeven(1); Pow2PlusSeven(8); Pow2PlusSeven(15); Pow2PlusSeven(22); Pow2PlusSeven(29);
    Pow2PlusSeven(36); Pow2PlusSeven(43); Pow2PlusSeven(50); Pow2PlusSeven(57);
  }

  lemma Pow2Steps()
    ensures Pow2(1) == 2
  {
    assert Pow2(1) == 2 * Pow2(0);
  }

  /** Reading back what was written, with anything behind it. */
  lemma {:induction false} DecodeEncoded(v: nat, shift: nat, data: seq<byte>, i: nat)
    requires shift < 64 && v < Pow2(64 - shift)
    requires i <= |data| && EncodeVarint(v) <= data[i..]
    ensures DecodeVarint(data, i, shift) == Ok((v, i + |EncodeVarint(v)|))
    decreases v
  {
    var s := EncodeVarint(v);
    assert data[i] == data[i..][0] == s[0];
    if 128 <= v {
      assert Pow2(7) == 128 by { Pow2PlusSeven(0); }
      if 64 - shift <= 7 {
        Pow2Monotone(64 - shift, 7);
      } else {
        Pow2PlusSeven(57 - shift);
        assert s[1..] == EncodeVarint(v / 128);
        assert data[i + 1..] == data[i..][1..];
        DecodeEncoded(v / 128, shift + 7, data, i + 1);
      }
    }
  }

  lemma VarintRoundTrip(v: uint64, data: seq<byte>, i: nat)
    requires i <= |data| && EncodeVarint(v) <= data[i..]
    ensures DecodeVarint(data, i, 0) == Ok((v, i + |EncodeVarint(v)|))
  {
    Pow2Sixty4();
    DecodeEncoded(v, 0, data, i);
  }

  /** Only the bytes up to the end of the varint matter. */
  lemma {:induction false} DecodePrefix(a: seq<byte>, b: seq<byte>, i: nat, shift: nat)
    requires DecodeVarint(a, i, shift).Ok?
    ensures DecodeVarint(a + b, i, shift) == DecodeVarint(a, i, shift)
    decreases 64 - shift
  {
    assert (a + b)[i] == a[i];
    if 128 <= a[i] {
      DecodePrefix(a, b, i + 1, shift + 7);
    }
  }

  /** Bytes in front only move the position. */
  lemma {:induction false} DecodeShift(a: seq<byte>, b: seq<byte>, j: nat, shift: nat)
    ensures DecodeVarint(a + b, |a| + j, shift)
            == match DecodeVarint(b, j, shift)
               case Ok(p) => Ok((p.0, |a| + p.1))
               case Err(e) => Err(e)
    decreases 64 - shift
  {
    if shift < 64 && j < |b| {
      assert (a + b)[|a| + j] == b[j];
      if 128 <= b[j] {
        DecodeShift(a, b, j + 1, shift + 7);
      }
    }
  }

  /** The groups of seven bits of a varint, least significant first, as one number. */
  function Groups(s: seq<byte>): nat {
    if s == [] then 0 else s[0] % 128 + 128 * Groups(s[1..])
  }

  /** The format: seven bits in every byte, the lowest first, the high bit set on all bytes but the last, and no
      byte more than it takes. */
  lemma {:induction false} VarintFormat(v: nat)
    ensures var s := EncodeVarint(v);
            && Groups(s) == v
            && (forall i :: 0 <= i < |s| ==> (128 <= s[i] <==> i < |s| - 1))
            && (s[|s| - 1] == 0 ==> v == 0 && |s| == 1)
    decreases v
  {
    if 128 <= v {
      VarintFormat(v / 128);
      var s, t := EncodeVarint(v), EncodeVarint(v / 128);
      assert s[1..] == t;
      forall i | 0 <= i < |s|
        ensures 128 <= s[i] <==> i < |s| - 1
      {
        if i != 0 {
          assert s[i] == t[i - 1];
        }
      }
    } else {
      assert EncodeVarint(v)[1..] == [];
    }
  }

  /** A byte without the high bit ends a varint that begins at `i`. */
  predicate EndsAt(data: seq<byte>, i: nat, k: int) {
    i <= k < |data| && data[k] < 128
  }

  /** Exactly which bytes are read as a varint, and as which: those that end within ten bytes. */
  lemma DecodesIff(data: seq<byte>, i: nat)
    ensures var r := DecodeVarint(data, i, 0);
            && (r.Ok? <==> exists k :: k < i + 10 && EndsAt(data, i, k))
            && (r.Ok? ==> EndsAt(data, i, r.value.1 - 1) && Groups(data[i..r.value.1]) == r.value.0)
  {
    hide DecodeVarint, Groups;
    DecodedEnds(data, i, 0);
    var r := DecodeVarint(data, i, 0);
    if r.Ok? {
      assert EndsAt(data, i, r.value.1 - 1);
    } else if k :| k < i + 10 && EndsAt(data, i, k) {
      DecodesIfEnds(data, i, 0, k);
      assert false;
    }
  }

  lemma {:induction false} DecodesIfEnds(data: seq<byte>, i: nat, shift: nat, k: nat)
    requires EndsAt(data, i, k) && shift + 7 * (k - i) < 64
    ensures DecodeVarint(data, i, shift).Ok?
    decreases 64 - shift
  {
    if 128 <= data[i] {
      DecodesIfEnds(data, i + 1, shift + 7, k);
    }
  }

  lemma {:induction false} DecodedEnds(data: seq<byte>, i: nat, shift: nat)
    ensures var r := DecodeVarint(data, i, shift);
            r.Ok? ==> shift + 7 * (r.value.1 - 1 - i) < 64 && EndsAt(data, i, r.value.1 - 1)
                      && Groups(data[i..r.value.1]) == r.value.0
    decreases 64 - shift
  {
    if shift < 64 && i < |data| {
      if data[i] < 128 {
        assert data[i..i + 1][1..] == [];
      } else {
        DecodedEnds(data, i + 1, shift + 7);
        var r := DecodeVarint(data, i + 1, shift + 7);
        if r.Ok? {
          assert data[i..r.value.1][1..] == data[i + 1..r.value.1];
        }
      }
    }
  }

  // ---------- the size of a varint ----------

  /** The number of bits needed to write x (math/bits.Len64). */
  function BitLen(x: nat): nat {
    if x == 0 then 0 else 1 + BitLen(x / 2)
  }

  function Sov(x: nat): nat {
    (BitLen(if x % 2 == 0 then x + 1 else x) + 6) / 7
  }

  lemma BitLenOfSevenMore(x: nat)
    requires 128 <= x
    ensures BitLen(x) == 7 + BitLen(x / 128)
  {
    BitLenOfOneMore(x);
    BitLenOfOneMore(x / 2);
    BitLenOfOneMore(x / 4);
    BitLenOfOneMore(x / 8);
    BitLenOfOneMore(x / 16);
    BitLenOfOneMore(x / 32);
    BitLenOfOneMore(x / 64);
    Halves(x);
  }

  lemma BitLenOfOneMore(x: nat)
    requires 0 < x
    ensures BitLen(x) == 1 + BitLen(x / 2)
  {}

  lemma Halves(x: nat)
    ensures x / 2 / 2 == x / 4 && x / 4 / 2 == x / 8 && x / 8 / 2 == x / 16
    ensures x / 16 / 2 == x / 32 && x / 32 / 2 == x / 64 && x / 64 / 2 == x / 128
  {}

  lemma {:induction false} SmallBitLen(x: nat, n: nat)
    requires 0 < x < Pow2(n)
    ensures 1 <= BitLen(x) <= n
    decreases n
  {
    if 1 < x {
      SmallBitLen(x / 2, n - 1);
    }
  }

  /** The size formula, (Len64(x|1)+6)/7, is the number of bytes the encoder writes. */
  lemma {:induction false} SovIsVarintLength(x: nat)
    ensures Sov(x) == |EncodeVarint(x)|
    decreases x
  {
    var odd := if x % 2 == 0 then x + 1 else x;
    if x < 128 {
      Pow2PlusSeven(0);
      SmallBitLen(odd, 7);
    } else {
      SovIsVarintLength(x / 128);
      BitLenOfSevenMore(odd);
      var y := x / 128;
      assert odd / 128 == y;
      assert BitLen(if y % 2 == 0 then y + 1 else y) == BitLen(y) by {
        assert (if y % 2 == 0 then y + 1 else y) / 2 == y / 2;
      }
    }
  }

  /** Ten bytes are enough for any field. */
  lemma VarintShort(v: uint64)
    ensures |EncodeVarint(v)| <= 10
  {
    hide EncodeVarint, BitLen, Pow2;
    SovIsVarintLength(v);
    Pow2Sixty4();
    SmallBitLen(if v % 2 == 0 then v + 1 else v, 64);
  }

  // ---------- the loops ----------

  method EncodeVarintAt(dAtA: array<byte>, end: nat, value: nat) returns (base: nat)
    requires |EncodeVarint(value)| <= end <= dAtA.Length
    modifies dAtA
    ensures base == end - |EncodeVarint(value)|
    ensures dAtA[base..end] == EncodeVarint(value)
    ensures Untouched(dAtA, base, end)
  {
    SovIsVarintLength(value);
    var v := value;
    var offset := end - Sov(v);
    base := offset;
    while 128 <= v
      invariant base <= offset && offset + |EncodeVarint(v)| == end
      invariant dAtA[base..offset] + EncodeVarint(v) == EncodeVarint(value)
      invariant Untouched(dAtA, base, end)
      decreases v
    {
      WrittenSoFar(dAtA[base..offset], v % 128 + 128, EncodeVarint(v / 128));
      ghost var written := dAtA[base..offset];
      dAtA[offset] := v % 128 + 128;
      assert dAtA[base..offset + 1] == written + [v % 128 + 128];
      v := v / 128;
      offset := offset + 1;
    }
    ghost var written := dAtA[base..offset];
    dAtA[offset] := v;
    assert dAtA[base..end] == written + [v];
  }

  lemma WrittenSoFar(written: seq<byte>, b: byte, rest: seq<byte>)
    ensures written + ([b] + rest) == (written + [b]) + rest
  {}

  /** Nothing outside the window has been written. */
  twostate predicate Untouched(dAtA: array<byte>, lo: int, hi: int)
    reads dAtA
  {
    forall k {:trigger dAtA[k]} :: 0 <= k < dAtA.Length && (k < lo || hi <= k) ==> dAtA[k] == old(dAtA[k])
  }

  /** The inner loop of every parser: seven bits at a time are or-ed into a field of `width` bits.
      The bits are disjoint, so or-ing is adding; what exceeds the width is lost. */
  method ReadVarint(data: seq<byte>, start: nat, width: nat) returns (r: Result<(nat, nat)>)
    requires start <= |data|
    ensures r == Truncated(DecodeVarint(data, start, 0), width)
  {
    hide DecodeVarint, Pow2, Continued;
    var v, i, shift := 0, start, 0;
    ghost var full: nat := 0;
    ContinueFromStart(DecodeVarint(data, start, 0));
    while true
      invariant start <= i <= |data|
      invariant v == full % Pow2(width)
      invariant DecodeVarint(data, start, 0) == Continued(full, shift, DecodeVarint(data, i, shift))
      decreases |data| - i
    {
      DecodeStops(data, i, shift, full);
      if 64 <= shift {
        return Err(IntOverflow);
      }
      if |data| <= i {
        return Err(UnexpectedEOF);
      }
      var b := data[i];
      ContinueOne(data, i, shift, full);
      AddModulo(full, (b % 128) * Pow2(shift), Pow2(width));
      v := (v + (b % 128) * Pow2(shift)) % Pow2(width);
      full := full + (b % 128) * Pow2(shift);
      i := i + 1;
      if b < 128 {
        return Ok((v, i));
      }
      shift := shift + 7;
    }
  }

  /** The low bits of a varint, as a field of `width` bits keeps them. */
  function Truncated(r: Result<(nat, nat)>, width: nat): Result<(nat, nat)> {
    match r
    case Ok(p) => Ok((p.0 % Pow2(width), p.1))
    case Err(e) => Err(e)
  }

  ghost function Continued(full: nat, shift: nat, r: Result<(nat, nat)>): Result<(nat, nat)> {
    match r
    case Ok(p) =>
      NonNegativeProduct(Pow2(shift), p.0);
      Ok((full + Pow2(shift) * p.0, p.1))
    case Err(e) => Err(e)
  }

  lemma ContinueFromStart(r: Result<(nat, nat)>)
    ensures Continued(0, 0, r) == r
  {
    assert Pow2(0) == 1;
  }

  lemma DecodeStops(data: seq<byte>, i: nat, shift: nat, full: nat)
    ensures 64 <= shift ==> Continued(full, shift, DecodeVarint(data, i, shift)) == Err(IntOverflow)
    ensures shift < 64 && |data| <= i ==> Continued(full, shift, DecodeVarint(data, i, shift)) == Err(UnexpectedEOF)
  {}

  lemma ContinueOne(data: seq<byte>, i: nat, shift: nat, full: nat)
    requires shift < 64 && i < |data|
    ensures 0 <= (data[i] % 128) * Pow2(shift)
    ensures Continued(full, shift, DecodeVarint(data, i, shift))
            == if data[i] < 128 then Ok((full + (data[i] % 128) * Pow2(shift), i + 1))
               else Continued(full + (data[i] % 128) * Pow2(shift), shift + 7, DecodeVarint(data, i + 1, shift + 7))
  {
    NonNegativeProduct(data[i] % 128, Pow2(shift));
    var rest := DecodeVarint(data, i + 1, shift + 7);
    if 128 <= data[i] && rest.Ok? {
      Pow2PlusSeven(shift);
      ShiftedSum(full, data[i] - 128, rest.value.0, Pow2(shift));
    }
  }

  lemma ShiftedSum(full: nat, low: nat, high: nat, p: int)
    ensures full + p * (low + 128 * high) == (full + low * p) + (128 * p) * high
  {
    assert p * (low + 128 * high) == p * low + p * (128 * high);
    assert p * (128 * high) == (128 * p) * high;
  }

  // ---------- fixed 64-bit words, little endian ----------

  function LittleEndian(v: nat, n: nat): (s: seq<byte>)
    ensures |s| == n
    decreases n
  {
    if n == 0 then [] else [v % 256] + LittleEndian(v / 256, n - 1)
  }

  function FromLittleEndian(s: seq<byte>): nat {
    if s == [] then 0 else s[0] + 256 * FromLittleEndian(s[1..])
  }

  function Pow256(n: nat): (p: int)
    ensures 0 < p
  {
    if n == 0 then 1 else 256 * Pow256(n - 1)
  }

  lemma {:induction false} LittleEndianRoundTrip(v: nat, n: nat)
    requires v < Pow256(n)
    ensures FromLittleEndian(LittleEndian(v, n)) == v
    decreases n
  {
    if 0 < n {
      LittleEndianRoundTrip(v / 256, n - 1);
      assert LittleEndian(v, n)[1..] == LittleEndian(v / 256, n - 1);
    }
  }

  /** The format: byte `k` holds bits `8k` to `8k + 7`. */
  lemma {:induction false} LittleEndianDigit(v: nat, n: nat, k: nat)
    requires k < n
    ensures LittleEndian(v, n)[k] == (v / Pow256(k)) % 256
    decreases n
  {
    if k != 0 {
      LittleEndianDigit(v / 256, n - 1, k - 1);
      DivideTwice(v, Pow256(k - 1));
    }
  }

  lemma DivideTwice(v: nat, p: int)
    requires 0 < p
    ensures (v / 256) / p == v / (256 * p)
  {
    var q := v / 256;
    var k := q / p;
    assert v == 256 * q + v % 256;
    assert q == k * p + q % p;
    assert 256 * (k * p) == k * (256 * p);
    DivisionIs(v, k, 256 * p, 256 * (q % p) + v % 256);
  }

  lemma {:induction false} FromLittleEndianBound(s: seq<byte>)
    ensures FromLittleEndian(s) < Pow256(|s|)
  {
    if s != [] {
      FromLittleEndianBound(s[1..]);
    }
  }

  lemma Pow256Values()
    ensures Pow256(2) == 0x1_0000 && Pow256(4) == TWO_TO_THE_32 && Pow256(8) == TWO_TO_THE_64
  {
    assert Pow256(2) == 256 * Pow256(1);
    assert Pow256(4) == 256 * Pow256(3) && Pow256(3) == 256 * Pow256(2);
    assert Pow256(6) == 256 * Pow256(5) && Pow256(5) == 256 * Pow256(4);
    assert Pow256(8) == 256 * Pow256(7) && Pow256(7) == 256 * Pow256(6);
  }

  /** binary.LittleEndian.PutUint16/32/64 at `offset`. */
  method PutLittleEndian(dAtA: array<byte>, offset: nat, value: nat, n: nat)
    requires offset + n <= dAtA.Length
    modifies dAtA
    ensures dAtA[offset..offset + n] == LittleEndian(value, n)
    ensures Untouched(dAtA, offset, offset + n)
  {
    var v, k := value, 0;
    while k < n
      invariant k <= n
      invariant dAtA[offset..offset + k] + LittleEndian(v, n - k) == LittleEndian(value, n)
      invariant Untouched(dAtA, offset, offset + n)
    {
      ghost var written := dAtA[offset..offset + k];
      dAtA[offset + k] := v % 256;
      assert dAtA[offset..offset + k + 1] == written + [v % 256];
      v := v / 256;
      k := k + 1;
    }
  }
}
