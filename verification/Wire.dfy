/** Fields on the wire: reading one field, skipping an unknown one, and folding the fields of a
    buffer into a message ("Message Structure" and "Last One Wins", Protocol Buffers Encoding). */
module Wire {
  import opened Arithmetic
  import opened Messages
  import opened Varints

  /** Wrap-around of signed machine integers. */
  function AsInt64(x: int): int64 {
    (x + TWO_TO_THE_63) % TWO_TO_THE_64 - TWO_TO_THE_63
  }

  function AsInt32(x: int): int32 {
    (x + TWO_TO_THE_31) % TWO_TO_THE_32 - TWO_TO_THE_31
  }

  function AsUint64(x: int): uint64 {
    x % TWO_TO_THE_64
  }

  function AsUint32(x: int): uint32 {
    x % TWO_TO_THE_32
  }

  lemma ConversionsInvert(x: int)
    ensures -TWO_TO_THE_63 <= x < TWO_TO_THE_63 ==> AsInt64(AsUint64(x)) == x
    ensures -TWO_TO_THE_31 <= x < TWO_TO_THE_31 ==> AsInt32(AsUint64(x)) == x
    ensures 0 <= x < TWO_TO_THE_32 ==> AsUint32(AsUint64(x)) == x
  {}

  /** A conversion keeps the value up to a multiple of the width. */
  lemma ConversionsWrap(x: int)
    ensures (AsInt64(x) - x) % TWO_TO_THE_64 == 0 && (AsUint64(x) - x) % TWO_TO_THE_64 == 0
    ensures (AsInt32(x) - x) % TWO_TO_THE_32 == 0 && (AsUint32(x) - x) % TWO_TO_THE_32 == 0
  {
    Wraps(x, TWO_TO_THE_63, TWO_TO_THE_64);
    Wraps(x, 0, TWO_TO_THE_64);
    Wraps(x, TWO_TO_THE_31, TWO_TO_THE_32);
    Wraps(x, 0, TWO_TO_THE_32);
  }

  lemma Wraps(x: int, half: nat, m: int)
    requires 0 < m
    ensures ((x + half) % m - half - x) % m == 0
  {
    var k := (x + half) / m;
    assert x + half == k * m + (x + half) % m;
    assert -(k * m) == -k * m;
    DivisionIs(-k * m, -k, m, 0);
  }

  /** How a message reads the field with a given number. */
  datatype Kind = UnknownField | VarintField | Fixed64Field | DelimitedField

  datatype Payload =
    | VarintValue(v: uint64)
    | Fixed64Value(w: uint64)
    | Bytes(b: Buffer)
    | Skipped

  datatype Field = Field(num: int32, payload: Payload)

  // ---------- one field ----------

  function ReadField(kinds: int32 -> Kind, data: Buffer, i: nat): (r: Result<(Field, nat)>)
    ensures r.Ok? ==> i < r.value.1 <= |data|
  {
    var (tag, tagEnd) :- ReadTag(data, i);
    var (payload, end) :- ReadPayload(kinds(tag.num), data, i, tagEnd, tag.wireType);
    Ok((Field(tag.num, payload), end))
  }

  datatype Tag = Tag(num: int32, wireType: nat)

  function ReadTag(data: Buffer, i: nat): (r: Result<(Tag, nat)>)
    ensures r.Ok? ==> i < r.value.1 <= |data|
  {
    var (wire, end) :- DecodeVarint(data, i, 0);
    var tag := Tag(AsInt32(AsUint64(wire) / 8), AsUint64(wire) % 8);
    if tag.wireType == 4 then Err(EndGroupOutsideGroup)
    else if tag.num <= 0 then Err(IllegalTag)
    else Ok((tag, end))
  }

  function ReadPayload(kind: Kind, data: Buffer, i: nat, tagEnd: nat, wireType: nat): (r: Result<(Payload, nat)>)
    requires i < tagEnd <= |data|
    ensures r.Ok? ==> i < r.value.1 <= |data|
  {
    match kind
    case VarintField => if wireType != 0 then Err(WrongWireType) else ReadVarintValue(data, tagEnd)
    case Fixed64Field => if wireType != 1 then Err(WrongWireType) else ReadFixed64(data, tagEnd)
    case DelimitedField => if wireType != 2 then Err(WrongWireType) else ReadDelimited(data, tagEnd)
    case UnknownField => ReadUnknown(data, i)
  }

  function ReadVarintValue(data: Buffer, i: nat): (r: Result<(Payload, nat)>)
    ensures r.Ok? ==> i < r.value.1 <= |data|
  {
    var (v, end) :- DecodeVarint(data, i, 0);
    Ok((VarintValue(AsUint64(v)), end))
  }

  function ReadFixed64(data: Buffer, i: nat): (r: Result<(Payload, nat)>)
    ensures r.Ok? ==> i < r.value.1 <= |data|
  {
    if |data| < i + 8 then Err(UnexpectedEOF)
    else
      FromLittleEndianBound(data[i..i + 8]);
      Pow256Values();
      Ok((Fixed64Value(FromLittleEndian(data[i..i + 8])), i + 8))
  }

  function ReadDelimited(data: Buffer, i: nat): (r: Result<(Payload, nat)>)
    ensures r.Ok? ==> i < r.value.1 <= |data|
  {
    var (n, start) :- DecodeVarint(data, i, 0);
    var length := AsInt64(n);
    if length < 0 then Err(InvalidLength) else
    if TWO_TO_THE_63 <= start + length then Err(InvalidLength)
    else if |data| < start + length then Err(UnexpectedEOF)
    else Ok((Bytes(data[start..start + length]), start + length))
  }

  function ReadUnknown(data: Buffer, i: nat): (r: Result<(Payload, nat)>)
    requires i <= |data|
    ensures r.Ok? ==> i < r.value.1 <= |data|
  {
    var n :- SkipField(data[i..], 0, 0);
    if TWO_TO_THE_63 <= i + n then Err(InvalidLength)
    else if |data| < i + n then Err(UnexpectedEOF)
    else Ok((Skipped, i + n))
  }

  /** How the loops below notice a position that does not fit: a sum of two lengths either stays as it is
      or turns negative. */
  lemma NoWrap(x: nat, y: nat)
    requires x < TWO_TO_THE_63 && y < TWO_TO_THE_63
    ensures if x + y < TWO_TO_THE_63 then AsInt64(x + y) == x + y else AsInt64(x + y) < 0
  {}

  /** The end of the field at `i`, group and all; it may lie behind the end of the buffer. */
  function SkipField(data: Buffer, i: nat, depth: nat): (r: Result<nat>)
    ensures r.Ok? ==> i < r.value < TWO_TO_THE_63
    decreases |data| - i
  {
    if |data| <= i then Err(UnexpectedEOF) else
    var (end, newDepth) :- SkipStep(data, i, depth);
    if newDepth == 0 then Ok(end) else SkipField(data, end, newDepth)
  }

  function SkipStep(data: Buffer, i: nat, depth: nat): (r: Result<(nat, nat)>)
    ensures r.Ok? ==> i < r.value.0 < TWO_TO_THE_63
  {
    var (wire, tagEnd) :- DecodeVarint(data, i, 0);
    var wireType := wire % 8;
    if wireType == 0 then
      var (_, end) :- DecodeVarint(data, tagEnd, 0);
      Ok((end, depth))
    else if wireType == 1 then Advance(tagEnd, 8, depth)
    else if wireType == 2 then
      var (n, start) :- DecodeVarint(data, tagEnd, 0);
      if AsInt64(n) < 0 then Err(InvalidLength) else Advance(start, AsInt64(n), depth)
    else if wireType == 3 then Ok((tagEnd, depth + 1))
    else if wireType == 4 then if depth == 0 then Err(UnexpectedEndOfGroup) else Ok((tagEnd, depth - 1))
    else if wireType == 5 then Advance(tagEnd, 4, depth)
    else Err(IllegalWireType)
  }

  function Advance(i: nat, n: nat, depth: nat): (r: Result<(nat, nat)>)
    requires i < TWO_TO_THE_63 && n < TWO_TO_THE_63
    ensures r.Ok? ==> r.value == (i + n, depth)
  {
    if TWO_TO_THE_63 <= i + n then Err(InvalidLength) else Ok((i + n, depth))
  }

  // ---------- a whole message ----------

  type Merge<!M> = (M, Field) -> Result<M>

  /** The generated parser: fields are read one after the other and merged into the message. */
  function Parse<M>(kinds: int32 -> Kind, merge: Merge<M>, m: M, data: Buffer, i: nat): Result<M>
    requires i <= |data|
    decreases |data| - i
  {
    if i == |data| then Ok(m)
    else
      var (f, next) :- ReadField(kinds, data, i);
      var m' :- MergeField(merge, m, f);
      Parse(kinds, merge, m', data, next)
  }

  function MergeField<M>(merge: Merge<M>, m: M, f: Field): Result<M> {
    if f.payload.Skipped? then Ok(m) else merge(m, f)
  }

  // ---------- the loops ----------

  method ReadUint64(dAtA: Buffer, start: nat) returns (r: Result<(uint64, nat)>)
    requires start <= |dAtA|
    ensures r == Wide(DecodeVarint(dAtA, start, 0))
  {
    Pow2Sixty4();
    var v := ReadVarint(dAtA, start, 64);
    if v.Err? { return Err(v.error); }
    return Ok((v.value.0, v.value.1));
  }

  function Wide(r: Result<(nat, nat)>): Result<(uint64, nat)> {
    match r
    case Ok(p) => Ok((AsUint64(p.0), p.1))
    case Err(e) => Err(e)
  }

  method SkipFieldAt(dAtA: Buffer) returns (r: Result<nat>)
    ensures r == SkipField(dAtA, 0, 0)
  {
    var iNdEx, depth := 0, 0;
    while iNdEx < |dAtA|
      invariant SkipField(dAtA, 0, 0) == SkipField(dAtA, iNdEx, depth)
      decreases |dAtA| - iNdEx
    {
      var step := SkipStepAt(dAtA, iNdEx, depth);
      if step.Err? { return Err(step.error); }
      iNdEx, depth := step.value.0, step.value.1;
      if depth == 0 { return Ok(iNdEx); }
    }
    return Err(UnexpectedEOF);
  }

  /** The body of the skipping loop. */
  method SkipStepAt(dAtA: Buffer, start: nat, depth: nat) returns (r: Result<(nat, nat)>)
    requires start < |dAtA|
    ensures r == SkipStep(dAtA, start, depth)
  {
    var tag := ReadUint64(dAtA, start);
    if tag.Err? { return Err(tag.error); }
    var (wire, iNdEx) := tag.value;
    LowBits(DecodeVarint(dAtA, start, 0).value.0);
    match wire % 8 {
      case 0 =>
        var skipped := ReadUint64(dAtA, iNdEx);
        if skipped.Err? { return Err(skipped.error); }
        return Ok((skipped.value.1, depth));
      case 1 =>
        r := AdvanceTo(iNdEx, 8, depth);
      case 2 =>
        var n := ReadUint64(dAtA, iNdEx);
        if n.Err? { return Err(n.error); }
        var length := AsInt64(n.value.0);
        SameLength(DecodeVarint(dAtA, iNdEx, 0).value.0);
        if length < 0 { return Err(InvalidLength); }
        r := AdvanceTo(n.value.1, length, depth);
      case 3 =>
        return Ok((iNdEx, depth + 1));
      case 4 =>
        if depth == 0 { return Err(UnexpectedEndOfGroup); }
        return Ok((iNdEx, depth - 1));
      case 5 =>
        r := AdvanceTo(iNdEx, 4, depth);
      case _ =>
        return Err(IllegalWireType);
    }
  }

  method AdvanceTo(i: nat, n: nat, depth: nat) returns (r: Result<(nat, nat)>)
    requires i < TWO_TO_THE_63 && n < TWO_TO_THE_63
    ensures r == Advance(i, n, depth)
  {
    var iNdEx := AsInt64(i + n);
    NoWrap(i, n);
    if iNdEx < 0 { return Err(InvalidLength); }
    return Ok((iNdEx, depth));
  }

  lemma LowBits(x: nat)
    ensures AsUint64(x) % 8 == x % 8
  {}

  lemma SameLength(x: nat)
    ensures AsInt64(AsUint64(x)) == AsInt64(x)
  {}

  /** Reading one field as the generated code does it. */
  method ReadFieldAt(kinds: int32 -> Kind, dAtA: Buffer, preIndex: nat) returns (r: Result<(Field, nat)>)
    requires preIndex < |dAtA|
    ensures r == ReadField(kinds, dAtA, preIndex)
  {
    var tag := ReadUint64(dAtA, preIndex);
    if tag.Err? { return Err(tag.error); }
    var (wire, iNdEx) := tag.value;
    var fieldNum := AsInt32(wire / 8);
    var wireType := wire % 8;
    if wireType == 4 { return Err(EndGroupOutsideGroup); }
    if fieldNum <= 0 { return Err(IllegalTag); }
    var payload;
    match kinds(fieldNum) {
      case VarintField =>
        if wireType != 0 { return Err(WrongWireType); }
        var v := ReadUint64(dAtA, iNdEx);
        if v.Err? { return Err(v.error); }
        payload := Ok((VarintValue(v.value.0), v.value.1));
      case Fixed64Field =>
        if wireType != 1 { return Err(WrongWireType); }
        payload := ReadFixed64(dAtA, iNdEx);
      case DelimitedField =>
        if wireType != 2 { return Err(WrongWireType); }
        payload := ReadDelimitedAt(dAtA, iNdEx);
      case UnknownField =>
        payload := ReadUnknownAt(dAtA, preIndex);
    }
    if payload.Err? { return Err(payload.error); }
    return Ok((Field(fieldNum, payload.value.0), payload.value.1));
  }

  method ReadDelimitedAt(dAtA: Buffer, start: nat) returns (r: Result<(Payload, nat)>)
    requires start <= |dAtA|
    ensures r == ReadDelimited(dAtA, start)
  {
    var n := ReadUint64(dAtA, start);
    if n.Err? { return Err(n.error); }
    var byteLen := AsInt64(n.value.0);
    SameLength(DecodeVarint(dAtA, start, 0).value.0);
    if byteLen < 0 { return Err(InvalidLength); }
    var postIndex := AsInt64(n.value.1 + byteLen);
    NoWrap(n.value.1, byteLen);
    if postIndex < 0 { return Err(InvalidLength); }
    if |dAtA| < postIndex { return Err(UnexpectedEOF); }
    return Ok((Bytes(dAtA[n.value.1..postIndex]), postIndex));
  }

  method ReadUnknownAt(dAtA: Buffer, start: nat) returns (r: Result<(Payload, nat)>)
    requires start <= |dAtA|
    ensures r == ReadUnknown(dAtA, start)
  {
    var skippy := SkipFieldAt(dAtA[start..]);
    if skippy.Err? { return Err(skippy.error); }
    var end := AsInt64(start + skippy.value);
    NoWrap(start, skippy.value);
    if end < 0 { return Err(InvalidLength); }
    if |dAtA| < end { return Err(UnexpectedEOF); }
    return Ok((Skipped, end));
  }

  /** The outer loop of every generated Unmarshal: it ends, never reads outside the buffer, and
      succeeds only at the buffer's end. */
  method Unmarshal<M>(kinds: int32 -> Kind, merge: Merge<M>, m0: M, dAtA: Buffer) returns (r: Result<M>)
    ensures r == Parse(kinds, merge, m0, dAtA, 0)
  {
    var m, iNdEx := m0, 0;
    while iNdEx < |dAtA|
      invariant iNdEx <= |dAtA|
      invariant Parse(kinds, merge, m0, dAtA, 0) == Parse(kinds, merge, m, dAtA, iNdEx)
    {
      var field := ReadFieldAt(kinds, dAtA, iNdEx);
      if field.Err? { return Err(field.error); }
      var merged := MergeField(merge, m, field.value.0);
      if merged.Err? { return Err(merged.error); }
      m, iNdEx := merged.value, field.value.1;
    }
    return Ok(m);
  }

  // ---------- locality ----------

  lemma {:induction false} SkipPrefix(a: Buffer, b: Buffer, i: nat, depth: nat)
    requires |a + b| < TWO_TO_THE_63 && SkipField(a, i, depth).Ok?
    ensures SkipField(a + b, i, depth) == SkipField(a, i, depth)
    decreases |a| - i
  {
    SkipStepPrefix(a, b, i, depth);
    var (end, newDepth) := SkipStep(a, i, depth).value;
    if newDepth != 0 {
      SkipPrefix(a, b, end, newDepth);
    }
  }

  lemma SkipStepPrefix(a: Buffer, b: Buffer, i: nat, depth: nat)
    requires |a + b| < TWO_TO_THE_63 && SkipStep(a, i, depth).Ok?
    ensures SkipStep(a + b, i, depth) == SkipStep(a, i, depth)
  {
    DecodePrefix(a, b, i, 0);
    var (wire, tagEnd) := DecodeVarint(a, i, 0).value;
    if wire % 8 == 0 || wire % 8 == 2 {
      DecodePrefix(a, b, tagEnd, 0);
    }
  }

  /** A field that was read completely is read the same with more bytes behind it. */
  lemma ReadFieldPrefix(kinds: int32 -> Kind, a: Buffer, b: Buffer, i: nat)
    requires |a + b| < TWO_TO_THE_63 && ReadField(kinds, a, i).Ok?
    ensures ReadField(kinds, a + b, i) == ReadField(kinds, a, i)
  {
    hide ReadPayload;
    DecodePrefix(a, b, i, 0);
    var (tag, tagEnd) := ReadTag(a, i).value;
    assert ReadTag(a + b, i) == ReadTag(a, i);
    ReadPayloadPrefix(kinds(tag.num), a, b, i, tagEnd, tag.wireType);
  }

  lemma ReadPayloadPrefix(kind: Kind, a: Buffer, b: Buffer, i: nat, tagEnd: nat, wireType: nat)
    requires |a + b| < TWO_TO_THE_63 && i < tagEnd <= |a| && ReadPayload(kind, a, i, tagEnd, wireType).Ok?
    ensures ReadPayload(kind, a + b, i, tagEnd, wireType) == ReadPayload(kind, a, i, tagEnd, wireType)
  {
    match kind
    case VarintField =>
      DecodePrefix(a, b, tagEnd, 0);
    case Fixed64Field =>
      assert (a + b)[tagEnd..tagEnd + 8] == a[tagEnd..tagEnd + 8];
    case DelimitedField =>
      ReadDelimitedPrefix(a, b, tagEnd);
    case UnknownField =>
      ReadUnknownPrefix(a, b, i);
  }

  lemma ReadDelimitedPrefix(a: Buffer, b: Buffer, i: nat)
    requires |a + b| < TWO_TO_THE_63 && ReadDelimited(a, i).Ok?
    ensures ReadDelimited(a + b, i) == ReadDelimited(a, i)
  {
    DecodePrefix(a, b, i, 0);
    var (n, start) := DecodeVarint(a, i, 0).value;
    var end := start + AsInt64(n);
    assert (a + b)[start..end] == a[start..end];
  }

  lemma ReadUnknownPrefix(a: Buffer, b: Buffer, i: nat)
    requires |a + b| < TWO_TO_THE_63 && i <= |a| && ReadUnknown(a, i).Ok?
    ensures ReadUnknown(a + b, i) == ReadUnknown(a, i)
  {
    assert (a + b)[i..] == a[i..] + b;
    SkipPrefix(a[i..], b, 0, 0);
  }

  /** Bytes in front of a field only move it. Only the kind of a failure may differ: a length so
      large that the position wraps around is told from a plain end of input by the position. */
  lemma ReadFieldShift(kinds: int32 -> Kind, a: Buffer, b: Buffer, j: nat)
    requires |a + b| < TWO_TO_THE_63
    ensures Moved(ReadField(kinds, b, j), ReadField(kinds, a + b, |a| + j), |a|)
  {
    hide ReadTag, ReadPayload;
    ReadTagShift(a, b, j);
    var r := ReadTag(b, j);
    if r.Ok? {
      ReadPayloadShift(kinds(r.value.0.num), a, b, j, r.value.1, r.value.0.wireType);
    }
  }

  lemma ReadTagShift(a: Buffer, b: Buffer, j: nat)
    requires |a + b| < TWO_TO_THE_63
    ensures Moved(ReadTag(b, j), ReadTag(a + b, |a| + j), |a|)
  {
    DecodeShift(a, b, j, 0);
  }

  ghost predicate Moved<T>(r: Result<(T, nat)>, s: Result<(T, nat)>, offset: nat) {
    && (r.Ok? <==> s.Ok?)
    && (r.Ok? ==> s.value.0 == r.value.0 && s.value.1 == offset + r.value.1)
  }

  lemma ReadPayloadShift(kind: Kind, a: Buffer, b: Buffer, j: nat, tagEnd: nat, wireType: nat)
    requires |a + b| < TWO_TO_THE_63 && j < tagEnd <= |b|
    ensures Moved(ReadPayload(kind, b, j, tagEnd, wireType),
                  ReadPayload(kind, a + b, |a| + j, |a| + tagEnd, wireType), |a|)
  {
    match kind
    case VarintField =>
      DecodeShift(a, b, tagEnd, 0);
    case Fixed64Field =>
      if tagEnd + 8 <= |b| {
        assert (a + b)[|a| + tagEnd..|a| + tagEnd + 8] == b[tagEnd..tagEnd + 8];
      }
    case DelimitedField =>
      ReadDelimitedShift(a, b, tagEnd);
    case UnknownField =>
      assert (a + b)[|a| + j..] == b[j..];
  }

  lemma ReadDelimitedShift(a: Buffer, b: Buffer, j: nat)
    requires |a + b| < TWO_TO_THE_63
    ensures Moved(ReadDelimited(b, j), ReadDelimited(a + b, |a| + j), |a|)
  {
    DecodeShift(a, b, j, 0);
    var r := DecodeVarint(b, j, 0);
    if r.Ok? && 0 <= AsInt64(r.value.0) {
      var start, length := r.value.1, AsInt64(r.value.0);
      if start + length <= |b| {
        assert (a + b)[|a| + start..|a| + start + length] == b[start..start + length];
      }
    }
  }

  // ---------- merging ----------

  ghost predicate Agree<M>(r: Result<M>, s: Result<M>) {
    (r.Ok? <==> s.Ok?) && (r.Ok? ==> r.value == s.value)
  }

  lemma {:induction false} ParsePrefix<M>(kinds: int32 -> Kind, merge: Merge<M>, m: M, a: Buffer, b: Buffer, i: nat)
    requires |a + b| < TWO_TO_THE_63 && i <= |a| && Parse(kinds, merge, m, a, i).Ok?
    ensures Parse(kinds, merge, m, a + b, i)
            == Parse(kinds, merge, Parse(kinds, merge, m, a, i).value, a + b, |a|)
    decreases |a| - i
  {
    hide ReadField;
    if i < |a| {
      ReadFieldPrefix(kinds, a, b, i);
      var (f, next) := ReadField(kinds, a, i).value;
      var m' := MergeField(merge, m, f).value;
      ParsePrefix(kinds, merge, m', a, b, next);
    }
  }

  lemma {:induction false} ParseShift<M>(kinds: int32 -> Kind, merge: Merge<M>, m: M, a: Buffer, b: Buffer, j: nat)
    requires |a + b| < TWO_TO_THE_63 && j <= |b|
    ensures Agree(Parse(kinds, merge, m, a + b, |a| + j), Parse(kinds, merge, m, b, j))
    decreases |b| - j
  {
    hide ReadField;
    if j < |b| {
      ReadFieldShift(kinds, a, b, j);
      var r := ReadField(kinds, b, j);
      if r.Ok? {
        var merged := MergeField(merge, m, r.value.0);
        if merged.Ok? {
          ParseShift(kinds, merge, merged.value, a, b, r.value.1);
        }
      }
    }
  }

  /** Parsing is a homomorphism: what the first buffer leaves in the message is what the second is
      merged into. */
  lemma ParseConcat<M>(kinds: int32 -> Kind, merge: Merge<M>, m: M, a: Buffer, b: Buffer)
    requires |a + b| < TWO_TO_THE_63 && Parse(kinds, merge, m, a, 0).Ok?
    ensures Agree(Parse(kinds, merge, m, a + b, 0),
                  Parse(kinds, merge, Parse(kinds, merge, m, a, 0).value, b, 0))
  {
    ParsePrefix(kinds, merge, m, a, b, 0);
    ParseShift(kinds, merge, Parse(kinds, merge, m, a, 0).value, a, b, 0);
  }

  /** An unknown field may be inserted between any two fields without changing the message. */
  lemma UnknownFieldIgnored<M>(kinds: int32 -> Kind, merge: Merge<M>, m: M, a: Buffer, unknown: Buffer, b: Buffer,
                               num: int32)
    requires |a + unknown + b| < TWO_TO_THE_63 && Parse(kinds, merge, m, a, 0).Ok?
    requires ReadField(kinds, unknown, 0) == Ok((Field(num, Skipped), |unknown|))
    ensures Agree(Parse(kinds, merge, m, a + unknown + b, 0), Parse(kinds, merge, m, a + b, 0))
  {
    hide Parse;
    var m1 := Parse(kinds, merge, m, a, 0).value;
    assert a + unknown + b == a + (unknown + b);
    ParseConcat(kinds, merge, m, a, unknown + b);
    UnknownAlone(kinds, merge, m1, unknown, num);
    ParseConcat(kinds, merge, m1, unknown, b);
    ParseConcat(kinds, merge, m, a, b);
  }

  lemma UnknownAlone<M>(kinds: int32 -> Kind, merge: Merge<M>, m: M, unknown: Buffer, num: int32)
    requires ReadField(kinds, unknown, 0) == Ok((Field(num, Skipped), |unknown|))
    ensures Parse(kinds, merge, m, unknown, 0) == Ok(m)
  {
    assert Parse(kinds, merge, m, unknown, |unknown|) == Ok(m);
  }

  // ---------- skipping, by recursion over groups ----------

  /** The end of the field at `i`. A group ends at the next end tag that no group inside it has used up,
      whatever its number. */
  function FieldEnd(data: Buffer, i: nat): (r: Result<nat>)
    ensures r.Ok? ==> i < r.value < TWO_TO_THE_63
    decreases |data| - i, 0
  {
    if |data| <= i then Err(UnexpectedEOF) else
    var (end, depth) :- SkipStep(data, i, 0);
    if depth == 0 then Ok(end) else GroupEnd(data, end)
  }

  /** Fields up to and including the end tag of the group that encloses position `i`. */
  function GroupEnd(data: Buffer, i: nat): (r: Result<nat>)
    ensures r.Ok? ==> i < r.value < TWO_TO_THE_63
    decreases |data| - i, 1
  {
    if |data| <= i then Err(UnexpectedEOF) else
    var (tag, tagEnd) :- DecodeVarint(data, i, 0);
    if tag % 8 == 4 then Ok(tagEnd)
    else
      var end :- FieldEnd(data, i);
      GroupEnd(data, end)
  }

  /** What the tag at a position inside a group leads to; groups begin and end with a field number. */
  datatype Move =
    | Fails(error: Error)
    | Closes(end: nat, num: nat)
    | Passes(end: nat)
    | Opens(end: nat, num: nat)

  function MoveAt(data: Buffer, i: nat): (move: Move)
    ensures move.Fails? || i < move.end < TWO_TO_THE_63
  {
    var tag := DecodeVarint(data, i, 0);
    if tag.Err? then Fails(tag.error)
    else if tag.value.0 % 8 == 4 then Closes(tag.value.1, FieldNumber(tag.value.0))
    else
      var step := SkipStep(data, i, 0);
      if step.Err? then Fails(step.error)
      else if step.value.1 == 0 then Passes(step.value.0) else Opens(step.value.0, FieldNumber(tag.value.0))
  }

  /** What a 64-bit tag says above its wire type. */
  function FieldNumber(tag: nat): nat {
    AsUint64(tag) / 8
  }

  /** One step of the recursion over groups. */
  lemma MoveOfGroup(data: Buffer, i: nat)
    requires i < |data|
    ensures GroupEnd(data, i) == GroupAfter(data, MoveAt(data, i))
  {}

  function GroupAfter(data: Buffer, move: Move): Result<nat> {
    match move
    case Fails(e) => Err(e)
    case Closes(end, _) => Ok(end)
    case Passes(end) => GroupEnd(data, end)
    case Opens(end, _) => var inner :- GroupEnd(data, end); GroupEnd(data, inner)
  }

  /** The same step of the loop. */
  lemma MoveOfLoop(data: Buffer, i: nat, depth: nat)
    requires i < |data|
    ensures SkipField(data, i, depth + 1) == SkipAfter(data, MoveAt(data, i), depth)
  {
    DepthShift(data, i, depth + 1);
  }

  function SkipAfter(data: Buffer, move: Move, depth: nat): Result<nat> {
    match move
    case Fails(e) => Err(e)
    case Closes(end, _) => Resume(data, end, depth)
    case Passes(end) => SkipField(data, end, depth + 1)
    case Opens(end, _) => SkipField(data, end, depth + 2)
  }

  /** Going on behind a closed group, inside `depth` more. */
  function Resume(data: Buffer, end: nat, depth: nat): Result<nat> {
    if depth == 0 then Ok(end) else SkipField(data, end, depth)
  }

  function ResumeAfter(data: Buffer, r: Result<nat>, depth: nat): Result<nat> {
    var end :- r;
    Resume(data, end, depth)
  }

  /** The depth counter of the skipping loop means: that many enclosing groups are still to end. */
  lemma {:induction false} SkipClosesGroups(data: Buffer, i: nat, depth: nat)
    ensures SkipField(data, i, depth + 1) == ResumeAfter(data, GroupEnd(data, i), depth)
    decreases |data| - i
  {
    if i < |data| {
      hide SkipField, GroupEnd, MoveAt;
      MoveOfGroup(data, i);
      MoveOfLoop(data, i, depth);
      var move := MoveAt(data, i);
      if move.Passes? {
        SkipClosesGroups(data, move.end, depth);
      } else if move.Opens? {
        SkipClosesGroups(data, move.end, depth + 1);
        if GroupEnd(data, move.end).Ok? {
          SkipClosesGroups(data, GroupEnd(data, move.end).value, depth);
        }
      }
    }
  }

  /** What one step does to the depth does not depend on the depth, but for an end tag at depth zero. */
  lemma DepthShift(data: Buffer, i: nat, depth: nat)
    requires 0 < depth
    ensures var r := DecodeVarint(data, i, 0);
            var s, s0 := SkipStep(data, i, depth), SkipStep(data, i, 0);
            if r.Err? then s == Err(r.error)
            else if r.value.0 % 8 == 4 then s == Ok((r.value.1, depth - 1))
            else if s0.Err? then s == Err(s0.error)
            else s == Ok((s0.value.0, depth + s0.value.1)) && s0.value.1 <= 1
  {}

  lemma DepthOfOneStep(data: Buffer, i: nat)
    ensures SkipStep(data, i, 0).Ok? ==> SkipStep(data, i, 0).value.1 <= 1
  {}

  /** The skipping loop accepts exactly the fields whose groups are balanced, and ends where they end. */
  lemma SkipIsRecursive(data: Buffer, i: nat)
    ensures SkipField(data, i, 0) == FieldEnd(data, i)
  {
    hide GroupEnd;
    if i < |data| {
      var step := SkipStep(data, i, 0);
      if step.Ok? && step.value.1 != 0 {
        DepthOfOneStep(data, i);
        SkipClosesGroups(data, step.value.0, 0);
      }
    }
  }

  // ---------- skipping, with the numbers of the groups ----------

  /** The end of the field at `i` by the specification: a group ends with an end tag of its own number. */
  function NumberedEnd(data: Buffer, i: nat): (r: Result<nat>)
    ensures r.Ok? ==> i < r.value < TWO_TO_THE_63
    decreases |data| - i, 0
  {
    if |data| <= i then Err(UnexpectedEOF)
    else
      match MoveAt(data, i)
      case Fails(e) => Err(e)
      case Closes(_, _) => Err(UnexpectedEndOfGroup)
      case Passes(end) => Ok(end)
      case Opens(end, num) => NumberedGroupEnd(data, end, num)
  }

  function NumberedGroupEnd(data: Buffer, i: nat, num: nat): (r: Result<nat>)
    ensures r.Ok? ==> i < r.value < TWO_TO_THE_63
    decreases |data| - i, 1
  {
    if |data| <= i then Err(UnexpectedEOF)
    else
      match MoveAt(data, i)
      case Fails(e) => Err(e)
      case Closes(end, closed) => if closed == num then Ok(end) else Err(UnexpectedEndOfGroup)
      case Passes(end) => NumberedGroupEnd(data, end, num)
      case Opens(end, inner) =>
        var after :- NumberedGroupEnd(data, end, inner);
        NumberedGroupEnd(data, after, num)
  }

  /** Every end tag, up to the one that ends the outermost of the open groups, has the number of the
      innermost group open then. */
  predicate TagsMatch(data: Buffer, i: nat, open: seq<nat>)
    decreases |data| - i
  {
    if open == [] || |data| <= i then true
    else
      match MoveAt(data, i)
      case Fails(_) => true
      case Closes(end, num) => num == open[|open| - 1] && TagsMatch(data, end, open[..|open| - 1])
      case Passes(end) => TagsMatch(data, end, open)
      case Opens(end, num) => TagsMatch(data, end, open + [num])
  }

  /** The same of a field on its own. */
  predicate EndTagsMatch(data: Buffer, i: nat) {
    i < |data| && MoveAt(data, i).Opens? ==> TagsMatch(data, MoveAt(data, i).end, [MoveAt(data, i).num])
  }

  /** A group that ends at all ends by the specification, and there, exactly if its end tags match. */
  lemma {:induction false} NumberedGroupIff(data: Buffer, i: nat, outer: seq<nat>, num: nat)
    requires GroupEnd(data, i).Ok?
    ensures TagsMatch(data, i, outer + [num])
            <==> NumberedGroupEnd(data, i, num).Ok? && TagsMatch(data, GroupEnd(data, i).value, outer)
    ensures NumberedGroupEnd(data, i, num).Ok? ==> NumberedGroupEnd(data, i, num) == GroupEnd(data, i)
    decreases |data| - i
  {
    hide GroupEnd, MoveAt;
    GroupInside(data, i);
    MoveOfGroup(data, i);
    var open, move := outer + [num], MoveAt(data, i);
    assert open[|open| - 1] == num && open[..|open| - 1] == outer;
    if move.Passes? {
      NumberedGroupIff(data, move.end, outer, num);
    } else if move.Opens? {
      NumberedGroupIff(data, move.end, open, move.num);
      NumberedGroupIff(data, GroupEnd(data, move.end).value, outer, num);
    }
  }

  lemma GroupInside(data: Buffer, i: nat)
    requires GroupEnd(data, i).Ok?
    ensures i < |data|
  {}

  /** Where the numbered reader accepts a field, so does the skipping loop, with the same end. */
  lemma {:induction false} NumberedEndIsGroupEnd(data: Buffer, i: nat, num: nat)
    requires NumberedGroupEnd(data, i, num).Ok?
    ensures GroupEnd(data, i) == NumberedGroupEnd(data, i, num)
    decreases |data| - i
  {
    hide GroupEnd, MoveAt;
    MoveOfGroup(data, i);
    var move := MoveAt(data, i);
    if move.Passes? {
      NumberedEndIsGroupEnd(data, move.end, num);
    } else if move.Opens? {
      NumberedEndIsGroupEnd(data, move.end, move.num);
      NumberedEndIsGroupEnd(data, NumberedGroupEnd(data, move.end, move.num).value, num);
    }
  }

  /** Exactly which fields the specification lets be skipped: those that the loop skips and whose end tags
      match; and then they end in the same place. */
  lemma NumberedIffTagsMatch(data: Buffer, i: nat)
    ensures NumberedEnd(data, i).Ok? <==> SkipField(data, i, 0).Ok? && EndTagsMatch(data, i)
    ensures NumberedEnd(data, i).Ok? ==> NumberedEnd(data, i) == SkipField(data, i, 0)
  {
    hide SkipField, GroupEnd, NumberedGroupEnd, TagsMatch;
    SkipIsRecursive(data, i);
    MoveOfField(data, i);
    if i < |data| && MoveAt(data, i).Opens? {
      var end, num := MoveAt(data, i).end, MoveAt(data, i).num;
      if NumberedGroupEnd(data, end, num).Ok? {
        NumberedEndIsGroupEnd(data, end, num);
      }
      if GroupEnd(data, end).Ok? {
        NumberedGroupIff(data, end, [], num);
        NothingOpen(data, GroupEnd(data, end).value);
        assert [] + [num] == [num];
      }
    }
  }

  lemma MoveOfField(data: Buffer, i: nat)
    ensures FieldEnd(data, i)
            == if |data| <= i then Err(UnexpectedEOF)
               else if MoveAt(data, i).Fails? then Err(MoveAt(data, i).error)
               else if MoveAt(data, i).Closes? then Err(UnexpectedEndOfGroup)
               else if MoveAt(data, i).Passes? then Ok(MoveAt(data, i).end)
               else GroupEnd(data, MoveAt(data, i).end)
  {}

  lemma NothingOpen(data: Buffer, i: nat)
    ensures TagsMatch(data, i, [])
  {}

  /** They need not match: the loop skips a group of number 8 that is ended by the tag of number 9. */
  lemma MismatchIsSkipped()
    ensures var data: Buffer := [0x43, 0x4C];
            SkipField(data, 0, 0) == Ok(2) && NumberedEnd(data, 0).Err?
  {
    var data: Buffer := [0x43, 0x4C];
    assert DecodeVarint(data, 0, 0) == Ok((0x43, 1)) && DecodeVarint(data, 1, 0) == Ok((0x4C, 2));
    assert SkipStep(data, 0, 0) == Ok((1, 1)) && SkipStep(data, 1, 1) == Ok((2, 0));
    assert SkipField(data, 1, 1) == Ok(2);
    assert MoveAt(data, 0) == Opens(1, 8) && MoveAt(data, 1) == Closes(2, 9);
    assert NumberedGroupEnd(data, 1, 8).Err?;
  }

  // ---------- what may stand in a buffer without being known ----------

  /** A field of any of the wire types that the specification describes; groups hold fields. */
  datatype Unknown =
    | AnyVarint(num: nat, v: uint64)
    | AnyFixed64(num: nat, w: seq<byte>)
    | AnyBytes(num: nat, b: seq<byte>)
    | AnyGroup(num: nat, fields: seq<Unknown>)
    | AnyFixed32(num: nat, w: seq<byte>)
  {
    /** Field numbers have 29 bits, and fixed words their width. */
    predicate Legal()
      decreases this
    {
      && 1 <= num < 0x2000_0000
      && (AnyFixed64? ==> |w| == 8)
      && (AnyFixed32? ==> |w| == 4)
      && (AnyGroup? ==> forall i :: 0 <= i < |fields| ==> fields[i].Legal())
    }
  }

  function TagOf(num: nat, wireType: nat): seq<byte> {
    EncodeVarint(num * 8 + wireType)
  }

  /** The bytes of a field: tag and payload; a group ends with an end tag of its own number. */
  function EncodeUnknown(u: Unknown): (s: seq<byte>)
    decreases u
  {
    match u
    case AnyVarint(num, v) => TagOf(num, 0) + EncodeVarint(v)
    case AnyFixed64(num, w) => TagOf(num, 1) + w
    case AnyBytes(num, b) => TagOf(num, 2) + (EncodeVarint(|b|) + b)
    case AnyGroup(num, fields) => TagOf(num, 3) + (EncodeUnknowns(fields) + TagOf(num, 4))
    case AnyFixed32(num, w) => TagOf(num, 5) + w
  }

  function EncodeUnknowns(us: seq<Unknown>): seq<byte>
    decreases us
  {
    if us == [] then [] else EncodeUnknown(us[0]) + EncodeUnknowns(us[1..])
  }

  /** The bytes stand in the buffer from a position on. */
  predicate StandsAt(data: seq<byte>, i: nat, s: seq<byte>) {
    i + |s| <= |data| && data[i..i + |s|] == s
  }

  lemma StandsApart(data: seq<byte>, i: nat, s: seq<byte>, t: seq<byte>)
    requires StandsAt(data, i, s + t)
    ensures StandsAt(data, i, s) && StandsAt(data, i + |s|, t)
  {
    var all := data[i..i + |s + t|];
    assert data[i..i + |s|] == all[..|s|] && data[i + |s|..i + |s| + |t|] == all[|s|..];
  }

  lemma DecodeStanding(data: Buffer, i: nat, v: uint64)
    requires StandsAt(data, i, EncodeVarint(v))
    ensures DecodeVarint(data, i, 0) == Ok((v, i + |EncodeVarint(v)|))
  {
    assert data[i..][..|EncodeVarint(v)|] == EncodeVarint(v);
    VarintRoundTrip(v, data, i);
  }

  lemma DecodeTag(data: Buffer, i: nat, num: nat, wireType: nat)
    requires num < 0x2000_0000 && wireType < 8 && StandsAt(data, i, TagOf(num, wireType))
    ensures DecodeVarint(data, i, 0) == Ok((num * 8 + wireType, i + |TagOf(num, wireType)|))
    ensures (num * 8 + wireType) % 8 == wireType && (num * 8 + wireType) / 8 == num
  {
    DecodeStanding(data, i, num * 8 + wireType);
  }

  lemma StandsInside(u: Unknown, data: Buffer, i: nat)
    requires StandsAt(data, i, EncodeUnknown(u))
    ensures i < |data|
  {
    assert 0 < |EncodeUnknown(u)|;
  }

  /** A field that is no group is passed by a single step. */
  lemma StepsOver(u: Unknown, data: Buffer, i: nat, depth: nat)
    requires u.Legal() && !u.AnyGroup? && StandsAt(data, i, EncodeUnknown(u))
    ensures SkipStep(data, i, depth) == Ok((i + |EncodeUnknown(u)|, depth)) && i < |data|
  {
    hide SkipStep, TagOf, StandsAt, EncodeVarint, EncodeUnknowns;
    StandsInside(u, data, i);
    match u
    case AnyVarint(num, v) => StepsOverVarint(data, i, num, v, depth);
    case AnyFixed64(num, w) => StepsOverFixed(data, i, num, 1, w, depth);
    case AnyBytes(num, b) => StepsOverBytes(data, i, num, b, depth);
    case AnyFixed32(num, w) => StepsOverFixed(data, i, num, 5, w, depth);
  }

  lemma StepsOverVarint(data: Buffer, i: nat, num: nat, v: uint64, depth: nat)
    requires num < 0x2000_0000 && StandsAt(data, i, TagOf(num, 0) + EncodeVarint(v))
    ensures SkipStep(data, i, depth) == Ok((i + |TagOf(num, 0) + EncodeVarint(v)|, depth))
  {
    hide TagOf, StandsAt, DecodeVarint, EncodeVarint;
    StandsApart(data, i, TagOf(num, 0), EncodeVarint(v));
    DecodeTag(data, i, num, 0);
    DecodeStanding(data, i + |TagOf(num, 0)|, v);
  }

  lemma StepsOverFixed(data: Buffer, i: nat, num: nat, wireType: nat, w: seq<byte>, depth: nat)
    requires num < 0x2000_0000 && StandsAt(data, i, TagOf(num, wireType) + w)
    requires (wireType == 1 && |w| == 8) || (wireType == 5 && |w| == 4)
    ensures SkipStep(data, i, depth) == Ok((i + |TagOf(num, wireType) + w|, depth))
  {
    hide TagOf, DecodeVarint;
    StandsApart(data, i, TagOf(num, wireType), w);
    DecodeTag(data, i, num, wireType);
  }

  lemma StepsOverBytes(data: Buffer, i: nat, num: nat, b: seq<byte>, depth: nat)
    requires num < 0x2000_0000 && StandsAt(data, i, TagOf(num, 2) + (EncodeVarint(|b|) + b))
    ensures SkipStep(data, i, depth) == Ok((i + |TagOf(num, 2) + (EncodeVarint(|b|) + b)|, depth))
  {
    hide TagOf, DecodeVarint, EncodeVarint;
    var j := i + |TagOf(num, 2)|;
    StandsApart(data, i, TagOf(num, 2), EncodeVarint(|b|) + b);
    StandsApart(data, j, EncodeVarint(|b|), b);
    DecodeTag(data, i, num, 2);
    DecodeStanding(data, j, |b|);
    assert AsInt64(|b|) == |b|;
  }

  lemma StepsIn(data: Buffer, i: nat, num: nat, depth: nat)
    requires 1 <= num < 0x2000_0000 && StandsAt(data, i, TagOf(num, 3))
    ensures SkipStep(data, i, depth) == Ok((i + |TagOf(num, 3)|, depth + 1)) && i < |data|
  {
    hide EncodeVarint, DecodeVarint;
    DecodeTag(data, i, num, 3);
  }

  lemma StepsOut(data: Buffer, i: nat, num: nat, depth: nat)
    requires 1 <= num < 0x2000_0000 && StandsAt(data, i, TagOf(num, 4))
    ensures SkipStep(data, i, depth + 1) == Ok((i + |TagOf(num, 4)|, depth)) && i < |data|
  {
    hide EncodeVarint, DecodeVarint;
    DecodeTag(data, i, num, 4);
  }

  /** Every legal field, however deep its groups, is skipped whole: the loop goes on behind its last byte, at the
      depth it had in front of its first. */
  lemma {:induction false} SkipsWhole(u: Unknown, data: Buffer, i: nat, depth: nat)
    requires u.Legal() && StandsAt(data, i, EncodeUnknown(u))
    ensures SkipField(data, i, depth) == Resume(data, i + |EncodeUnknown(u)|, depth)
    decreases u
  {
    hide SkipStep, TagOf, StandsAt;
    if u.AnyGroup? {
      var num, body := u.num, EncodeUnknowns(u.fields);
      var j := i + |TagOf(num, 3)|;
      StandsApart(data, i, TagOf(num, 3), body + TagOf(num, 4));
      StandsApart(data, j, body, TagOf(num, 4));
      StepsIn(data, i, num, depth);
      StepsOut(data, j + |body|, num, depth);
      SkipsAll(u.fields, data, j, depth);
    } else {
      StepsOver(u, data, i, depth);
    }
  }

  lemma {:induction false} SkipsAll(us: seq<Unknown>, data: Buffer, i: nat, depth: nat)
    requires (forall k :: 0 <= k < |us| ==> us[k].Legal()) && StandsAt(data, i, EncodeUnknowns(us))
    ensures SkipField(data, i, depth + 1) == SkipField(data, i + |EncodeUnknowns(us)|, depth + 1)
    decreases us
  {
    hide SkipField, EncodeUnknown;
    if us != [] {
      StandsApart(data, i, EncodeUnknown(us[0]), EncodeUnknowns(us[1..]));
      SkipsWhole(us[0], data, i, depth + 1);
      SkipsAll(us[1..], data, i + |EncodeUnknown(us[0])|, depth);
    }
  }

  /** So a parser that does not know the number of a legal field reads it as one that says nothing. */
  lemma ReadsAsSkipped(kinds: int32 -> Kind, u: Unknown)
    requires u.Legal() && |EncodeUnknown(u)| < TWO_TO_THE_63 && kinds(u.num) == UnknownField
    ensures ReadField(kinds, EncodeUnknown(u), 0) == Ok((Field(u.num, Skipped), |EncodeUnknown(u)|))
  {
    hide SkipField, TagOf;
    var data: Buffer := EncodeUnknown(u);
    assert data[0..] == data && data[0..|data|] == data;
    SkipsWhole(u, data, 0, 0);
    FirstTag(u, data);
    assert ReadUnknown(data, 0) == Ok((Skipped, |data|));
  }

  lemma FirstTag(u: Unknown, data: Buffer)
    requires u.Legal() && data == EncodeUnknown(u)
    ensures ReadTag(data, 0).Ok? && ReadTag(data, 0).value.0.num == u.num
  {
    hide TagOf;
    var wireType := if u.AnyVarint? then 0 else if u.AnyFixed64? then 1 else if u.AnyBytes? then 2
                    else if u.AnyGroup? then 3 else 5;
    assert TagOf(u.num, wireType) <= data;
    assert data[0..|TagOf(u.num, wireType)|] == TagOf(u.num, wireType);
    ReadsTag(data, u.num, wireType);
  }

  lemma ReadsTag(data: Buffer, num: nat, wireType: nat)
    requires num < 0x2000_0000 && wireType < 8 && StandsAt(data, 0, TagOf(num, wireType))
    ensures ReadTag(data, 0)
            == if wireType == 4 then Err(EndGroupOutsideGroup) else if num == 0 then Err(IllegalTag)
               else Ok((Tag(num, wireType), |TagOf(num, wireType)|))
  {
    hide TagOf, DecodeVarint, StandsAt;
    DecodeTag(data, 0, num, wireType);
    assert AsUint64(num * 8 + wireType) == num * 8 + wireType;
    assert AsInt32(num) == num;
  }

  /** And between any two fields it changes nothing, whatever it is. */
  lemma AnyUnknownIgnored<M>(kinds: int32 -> Kind, merge: Merge<M>, m: M, a: Buffer, u: Unknown, b: Buffer)
    requires u.Legal() && kinds(u.num) == UnknownField
    requires |a + EncodeUnknown(u) + b| < TWO_TO_THE_63 && Parse(kinds, merge, m, a, 0).Ok?
    ensures Agree(Parse(kinds, merge, m, a + EncodeUnknown(u) + b, 0), Parse(kinds, merge, m, a + b, 0))
  {
    hide Parse, ReadField, EncodeUnknown;
    ReadsAsSkipped(kinds, u);
    UnknownFieldIgnored(kinds, merge, m, a, EncodeUnknown(u), b, u.num);
  }

  // ---------- what may not ----------

  lemma NoSuchWireType(data: Buffer, num: nat, wireType: nat)
    requires num < 0x2000_0000 && 6 <= wireType < 8 && StandsAt(data, 0, TagOf(num, wireType))
    ensures ReadUnknown(data, 0).Err?
  {
    hide TagOf, DecodeVarint, StandsAt;
    DecodeTag(data, 0, num, wireType);
    assert data[0..] == data;
  }

  /** A field without a number, an end tag without its group, a wire type that there is not and a known field of
      another wire type are refused. */
  lemma TagsRefused(kinds: int32 -> Kind, num: nat, wireType: nat, rest: Buffer)
    requires num < 0x2000_0000 && wireType < 8 && |TagOf(num, wireType) + rest| < TWO_TO_THE_63
    requires || num == 0 || wireType == 4 || 6 <= wireType
             || (kinds(num) == VarintField && wireType != 0)
             || (kinds(num) == Fixed64Field && wireType != 1)
             || (kinds(num) == DelimitedField && wireType != 2)
    ensures ReadField(kinds, TagOf(num, wireType) + rest, 0).Err?
  {
    hide TagOf, ReadTag, ReadUnknown, ReadDelimited, ReadFixed64, ReadVarintValue;
    var data: Buffer := TagOf(num, wireType) + rest;
    assert data[0..|TagOf(num, wireType)|] == TagOf(num, wireType);
    ReadsTag(data, num, wireType);
    if 6 <= wireType {
      NoSuchWireType(data, num, wireType);
    }
  }
}
