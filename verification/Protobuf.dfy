/** The reader and writer of the mesh data message: base-128 varints and tagged fields, as in the
    Protocol Buffers encoding guide, sections "Base 128 Varints" and "Message Structure". */
module Protobuf {

  newtype byte = x: int | 0 <= x < 256

  datatype Error =
    | TruncatedVarint | VarintTooLong | TruncatedFixed64 | TruncatedLength | TruncatedFixed32
    | UnsupportedWire | NotPlausible

  datatype Result<T> = Ok(value: T) | Err(error: Error)

  datatype Option<T> = None | Some(value: T)

  // ---------------------------------------------------------------- varints

  function Pow128(k: nat): (p: nat)
    ensures p >= 1
  {
    if k == 0 then 1 else 128 * Pow128(k - 1)
  }

  const VARINT_BYTES := 10

  /** Seven bits a byte, low bits first, the high bit set on all but the last byte. */
  function EncodedVarint(value: nat): (out: seq<byte>)
    ensures |out| >= 1
  {
    if value > 0x7f then [(value % 128 + 128) as byte] + EncodedVarint(value / 128) else [value as byte]
  }

  method EncodeVarint(value0: nat) returns (out: seq<byte>)
    ensures out == EncodedVarint(value0)
  {
    var value := value0;
    out := [];
    while value > 0x7f
      invariant out + EncodedVarint(value) == EncodedVarint(value0)
    {
      out := out + [(value % 128 + 128) as byte];
      value := value / 128;
    }
    out := out + [value as byte];
  }

  /** A varint whose first k bytes hold `value` and whose rest is read separately. */
  function Shifted(value: nat, k: nat, rest: Result<(nat, nat)>): Result<(nat, nat)> {
    if rest.Ok? then Ok((value + Pow128(k) * rest.value.0, rest.value.1)) else rest
  }

  /** A value and the offset behind it, after `read` bytes of the same varint. */
  function VarintAt(data: seq<byte>, offset: nat, read: nat): (r: Result<(nat, nat)>)
    requires read <= VARINT_BYTES
    ensures r.Ok? ==> offset < r.value.1 <= |data|
    decreases VARINT_BYTES - read
  {
    if read == VARINT_BYTES then Err(VarintTooLong)
    else if offset >= |data| then Err(TruncatedVarint)
    else
      var low := data[offset] as nat % 128;
      if data[offset] < 128 then Ok((low, offset + 1))
      else Shifted(low, 1, VarintAt(data, offset + 1, read + 1))
  }

  lemma VarintUnfold(data: seq<byte>, offset: nat, k: nat)
    requires k < VARINT_BYTES && offset < |data|
    ensures VarintAt(data, offset, k) == (
      if data[offset] < 128 then Ok((data[offset] as nat % 128, offset + 1))
      else Shifted(data[offset] as nat % 128, 1, VarintAt(data, offset + 1, k + 1)))
  {
  }

  lemma VarintShort(data: seq<byte>, offset: nat, k: nat)
    requires k < VARINT_BYTES && offset >= |data|
    ensures VarintAt(data, offset, k) == Err(TruncatedVarint)
  {
  }

  lemma VarintLong(data: seq<byte>, offset: nat)
    ensures VarintAt(data, offset, VARINT_BYTES) == Err(VarintTooLong)
  {
  }

  lemma ShiftNothing(rest: Result<(nat, nat)>)
    ensures Shifted(0, 0, rest) == rest && Pow128(0) == 1
  {
  }

  lemma Pow128Step(k: nat)
    ensures Pow128(0) == 1 && Pow128(1) == 128 && Pow128(k + 1) == 128 * Pow128(k)
  {
  }

  lemma ShiftStep(value: nat, k: nat, low: nat, rest: Result<(nat, nat)>)
    ensures Shifted(value + low * Pow128(k), k + 1, rest) == Shifted(value, k, Shifted(low, 1, rest))
    ensures Pow128(k + 1) == 128 * Pow128(k)
  {
    hide Pow128;
    Pow128Step(k);
  }

  lemma ShiftLast(value: nat, k: nat, low: nat, next: nat)
    ensures Shifted(value, k, Ok((low, next))) == Ok((value + low * Pow128(k), next))
  {
    hide Pow128;
    assert low * Pow128(k) == Pow128(k) * low;
  }

  method ReadVarint(data: seq<byte>, offset0: nat) returns (r: Result<(nat, nat)>)
    ensures r == VarintAt(data, offset0, 0)
  {
    hide Pow128, VarintAt;
    var value: nat, offset: nat, weight: nat := 0, offset0, 1;
    ShiftNothing(VarintAt(data, offset0, 0));
    for k := 0 to VARINT_BYTES
      invariant weight == Pow128(k)
      invariant Shifted(value, k, VarintAt(data, offset, k)) == VarintAt(data, offset0, 0)
    {
      if offset >= |data| {
        VarintShort(data, offset, k);
        return Err(TruncatedVarint);
      }
      var b := data[offset];
      VarintUnfold(data, offset, k);
      ShiftStep(value, k, b as nat % 128, VarintAt(data, offset + 1, k + 1));
      ShiftLast(value, k, b as nat % 128, offset + 1);
      offset := offset + 1;
      value := value + (b as nat % 128) * weight;
      weight := 128 * weight;
      if b < 128 { return Ok((value, offset)); }
    }
    VarintLong(data, offset);
    return Err(VarintTooLong);
  }

  /** The number that seven-bit digits stand for, lowest first. */
  function Digits(bytes: seq<byte>): nat {
    if bytes == [] then 0 else bytes[0] as nat % 128 + 128 * Digits(bytes[1..])
  }

  /** All bytes but the last are marked by their high bit. */
  ghost predicate Marked(bytes: seq<byte>) {
    && bytes != [] && bytes[|bytes| - 1] < 128
    && forall i | 0 <= i < |bytes| - 1 :: bytes[i] >= 128
  }

  lemma LastByte(b: byte)
    requires b < 128
    ensures Marked([b]) && Digits([b]) == b as nat
  {
    assert [b][1..] == [];
  }

  lemma FrontByte(b: byte, rest: seq<byte>)
    requires b >= 128 && Marked(rest)
    ensures Marked([b] + rest) && Digits([b] + rest) == b as nat % 128 + 128 * Digits(rest)
  {
    assert ([b] + rest)[1..] == rest;
  }

  /** What a written varint is: the value in seven-bit digits, lowest first, every byte but the last
      marked. */
  lemma {:induction false} EncodedVarintMeans(value: nat)
    ensures var out := EncodedVarint(value);
      && Marked(out) && Digits(out) == value
      && out[|out| - 1] < 128 && forall i | 0 <= i < |out| - 1 :: out[i] >= 128
    decreases value
  {
    hide Digits;
    if value > 0x7f {
      EncodedVarintMeans(value / 128);
      FrontByte((value % 128 + 128) as byte, EncodedVarint(value / 128));
    } else {
      LastByte(value as byte);
    }
  }

  /** The bytes at an offset are the given ones. */
  ghost predicate At(data: seq<byte>, offset: nat, part: seq<byte>) {
    offset + |part| <= |data| && data[offset..offset + |part|] == part
  }

  lemma AtParts(data: seq<byte>, offset: nat, a: seq<byte>, b: seq<byte>)
    requires At(data, offset, a + b)
    ensures At(data, offset, a) && At(data, offset + |a|, b)
  {
    assert data[offset..offset + |a + b|][..|a|] == a;
    assert data[offset..offset + |a + b|][|a|..] == b;
  }

  lemma FirstByte(data: seq<byte>, offset: nat, value: nat)
    requires At(data, offset, EncodedVarint(value))
    ensures offset < |data|
    ensures value <= 0x7f ==> data[offset] as nat == value && |EncodedVarint(value)| == 1
    ensures value > 0x7f ==> data[offset] as nat == value % 128 + 128
    ensures value > 0x7f ==> At(data, offset + 1, EncodedVarint(value / 128))
    ensures value > 0x7f ==> |EncodedVarint(value)| == 1 + |EncodedVarint(value / 128)|
  {
    var out := EncodedVarint(value);
    assert data[offset] == data[offset..offset + |out|][0] == out[0];
    if value > 0x7f { AtParts(data, offset, [out[0]], EncodedVarint(value / 128)); }
  }

  /** Reading inverts writing for exactly the values that fit in the bytes left, whatever stands
      before and after. */
  lemma {:induction false} VarintRoundTrip(data: seq<byte>, offset: nat, value: nat, read: nat)
    requires read < VARINT_BYTES || (read == VARINT_BYTES && value > 0)
    requires At(data, offset, EncodedVarint(value))
    ensures value < Pow128(VARINT_BYTES - read) ==> VarintAt(data, offset, read) == Ok((value, offset + |EncodedVarint(value)|))
    ensures value >= Pow128(VARINT_BYTES - read) ==> VarintAt(data, offset, read) == Err(VarintTooLong)
    decreases VARINT_BYTES - read
  {
    hide Pow128, VarintAt, At;
    FirstByte(data, offset, value);
    if read == VARINT_BYTES {
      VarintLong(data, offset);
      Pow128Step(0);
    } else {
      VarintUnfold(data, offset, read);
      Pow128Step(VARINT_BYTES - read - 1);
      if value > 0x7f {
        VarintRoundTrip(data, offset + 1, value / 128, read + 1);
        Pow128Step(0);
      }
    }
  }

  /** Ten bytes of seven bits are seventy bits. */
  lemma SeventyBits()
    ensures Pow128(VARINT_BYTES) == 0x40_0000_0000_0000_0000
  {
    assert Pow128(5) == 0x8_0000_0000;
    assert Pow128(10) == 128 * (128 * (128 * (128 * (128 * Pow128(5)))));
  }

  // ---------------------------------------------------------------- messages

  datatype Message = Message(port: Option<nat>, payload: Option<seq<byte>>, requestId: nat)

  const NOTHING := Message(None, None, 0)

  /** One field as the reader sees it. */
  datatype Field =
    | Number(field: nat, value: nat)
    | Eight(field: nat, bytes: seq<byte>)
    | Block(field: nat, bytes: seq<byte>)
    | Four(field: nat, bytes: seq<byte>)

  function LittleEndian(bytes: seq<byte>): nat {
    if bytes == [] then 0 else bytes[0] as nat + 256 * LittleEndian(bytes[1..])
  }

  /** What a field does to the message: fields 1, 2 and 6 count, the last one wins. */
  function Absorb(m: Message, f: Field): Message {
    if f.field == 1 && f.Number? then m.(port := Some(f.value))
    else if f.field == 2 && f.Block? then m.(payload := Some(f.bytes))
    else if f.field == 6 && f.Number? then m.(requestId := f.value)
    else if f.field == 6 && f.Four? then m.(requestId := LittleEndian(f.bytes))
    else m
  }

  /** One field read from the data, and the offset behind it. */
  function FieldAt(data: seq<byte>, offset: nat): (r: Result<(Field, nat)>)
    ensures r.Ok? ==> offset < r.value.1 <= |data|
  {
    match VarintAt(data, offset, 0)
    case Err(e) => Err(e)
    case Ok(t) =>
      var field, wire, next := t.0 / 8, t.0 % 8, t.1;
      if wire == 0 then
        match VarintAt(data, next, 0)
        case Err(e) => Err(e)
        case Ok(v) => Ok((Number(field, v.0), v.1))
      else if wire == 1 then
        if next + 8 > |data| then Err(TruncatedFixed64) else Ok((Eight(field, data[next..next + 8]), next + 8))
      else if wire == 2 then
        match VarintAt(data, next, 0)
        case Err(e) => Err(e)
        case Ok(s) =>
          if s.1 + s.0 > |data| then Err(TruncatedLength) else Ok((Block(field, data[s.1..s.1 + s.0]), s.1 + s.0))
      else if wire == 5 then
        if next + 4 > |data| then Err(TruncatedFixed32) else Ok((Four(field, data[next..next + 4]), next + 4))
      else Err(UnsupportedWire)
  }

  function ParsedFrom(data: seq<byte>, offset: nat, m: Message): Result<Message>
    decreases |data| - offset
  {
    if offset >= |data| then Ok(m)
    else match FieldAt(data, offset)
      case Err(e) => Err(e)
      case Ok(f) => ParsedFrom(data, f.1, Absorb(m, f.0))
  }

  /** The final check: a port up to 511 and a payload must have been seen. */
  function Finish(r: Result<Message>): Result<Message> {
    if r.Ok? && (r.value.port == None || r.value.payload == None || r.value.port.value > 511) then Err(NotPlausible) else r
  }

  function Parsed(data: seq<byte>): Result<Message> {
    Finish(ParsedFrom(data, 0, NOTHING))
  }

  method ReadField(data: seq<byte>, offset: nat) returns (r: Result<(Field, nat)>)
    ensures r == FieldAt(data, offset)
  {
    hide VarintAt;
    var tag := ReadVarint(data, offset);
    if tag.Err? { return Err(tag.error); }
    var field, wire, next := tag.value.0 / 8, tag.value.0 % 8, tag.value.1;
    if wire == 0 {
      var v := ReadVarint(data, next);
      if v.Err? { return Err(v.error); }
      return Ok((Number(field, v.value.0), v.value.1));
    } else if wire == 1 {
      if next + 8 > |data| { return Err(TruncatedFixed64); }
      return Ok((Eight(field, data[next..next + 8]), next + 8));
    } else if wire == 2 {
      var s := ReadVarint(data, next);
      if s.Err? { return Err(s.error); }
      var size, start := s.value.0, s.value.1;
      if start + size > |data| { return Err(TruncatedLength); }
      return Ok((Block(field, data[start..start + size]), start + size));
    } else if wire == 5 {
      if next + 4 > |data| { return Err(TruncatedFixed32); }
      return Ok((Four(field, data[next..next + 4]), next + 4));
    } else {
      return Err(UnsupportedWire);
    }
  }

  method ParseDataMessage(data: seq<byte>) returns (r: Result<Message>)
    ensures r == Parsed(data)
  {
    hide FieldAt;
    var m, offset := NOTHING, 0;
    while offset < |data|
      invariant ParsedFrom(data, offset, m) == ParsedFrom(data, 0, NOTHING)
      decreases |data| - offset
    {
      var f := ReadField(data, offset);
      if f.Err? { return Err(f.error); }
      m, offset := Absorb(m, f.value.0), f.value.1;
    }
    if m.port == None || m.payload == None || m.port.value > 511 { return Err(NotPlausible); }
    return Ok(m);
  }

  // ---------------------------------------------------------------- writing fields

  function Wire(f: Field): nat {
    match f case Number(_, _) => 0 case Eight(_, _) => 1 case Block(_, _) => 2 case Four(_, _) => 5
  }

  function Body(f: Field): seq<byte> {
    match f
    case Number(_, value) => EncodedVarint(value)
    case Eight(_, bytes) => bytes
    case Block(_, bytes) => EncodedVarint(|bytes|) + bytes
    case Four(_, bytes) => bytes
  }

  function EncodedField(f: Field): seq<byte> {
    EncodedVarint(8 * f.field + Wire(f)) + Body(f)
  }

  function EncodedFields(fields: seq<Field>): seq<byte> {
    if fields == [] then [] else EncodedField(fields[0]) + EncodedFields(fields[1..])
  }

  /** Numbers fit in ten varint bytes and fixed-width fields have their width. */
  predicate WellFormed(f: Field) {
    && 8 * f.field + Wire(f) < Pow128(VARINT_BYTES)
    && match f
       case Number(_, value) => value < Pow128(VARINT_BYTES)
       case Eight(_, bytes) => |bytes| == 8
       case Block(_, bytes) => |bytes| < Pow128(VARINT_BYTES)
       case Four(_, bytes) => |bytes| == 4
  }

  lemma FieldRoundTrip(data: seq<byte>, offset: nat, f: Field)
    requires WellFormed(f) && At(data, offset, EncodedField(f))
    ensures FieldAt(data, offset) == Ok((f, offset + |EncodedField(f)|))
  {
    hide VarintAt, EncodedVarint, Pow128;
    var tag := EncodedVarint(8 * f.field + Wire(f));
    var next := offset + |tag|;
    AtParts(data, offset, tag, Body(f));
    VarintRoundTrip(data, offset, 8 * f.field + Wire(f), 0);
    assert (8 * f.field + Wire(f)) / 8 == f.field && (8 * f.field + Wire(f)) % 8 == Wire(f);
    if f.Number? {
      VarintRoundTrip(data, next, f.value, 0);
    } else if f.Block? {
      AtParts(data, next, EncodedVarint(|f.bytes|), f.bytes);
      VarintRoundTrip(data, next, |f.bytes|, 0);
    }
  }

  /** The tag of a written field is eight times its number plus 0, 1, 2 or 5. */
  lemma EncodedTags(field: nat, value: nat, bytes: seq<byte>)
    ensures EncodedField(Number(field, value)) == EncodedVarint(8 * field) + EncodedVarint(value)
    ensures EncodedField(Eight(field, bytes)) == EncodedVarint(8 * field + 1) + bytes
    ensures EncodedField(Block(field, bytes)) == EncodedVarint(8 * field + 2) + (EncodedVarint(|bytes|) + bytes)
    ensures EncodedField(Four(field, bytes)) == EncodedVarint(8 * field + 5) + bytes
  {
  }

  // ---------------------------------------------------------------- damaged fields

  /** A varint that is cut off is refused as cut off. */
  lemma {:induction false} VarintCut(data: seq<byte>, offset: nat, value: nat, read: nat)
    requires read < VARINT_BYTES && value < Pow128(VARINT_BYTES - read)
    requires offset <= |data| < offset + |EncodedVarint(value)|
    requires data[offset..] == EncodedVarint(value)[..|data| - offset]
    ensures VarintAt(data, offset, read) == Err(TruncatedVarint)
    decreases VARINT_BYTES - read
  {
    hide VarintAt, Pow128;
    if offset == |data| {
      VarintShort(data, offset, read);
    } else {
      var out := EncodedVarint(value);
      assert data[offset] == data[offset..][0] == out[0];
      assert value > 0x7f;
      VarintUnfold(data, offset, read);
      Pow128Step(VARINT_BYTES - read - 1);
      Pow128Step(0);
      assert value / 128 < Pow128(VARINT_BYTES - (read + 1));
      assert data[offset + 1..] == data[offset..][1..] == out[1..|data| - offset] == out[1..][..|data| - offset - 1];
      VarintCut(data, offset + 1, value / 128, read + 1);
    }
  }

  /** The error for a field of which only the first n bytes are there. */
  function CutError(f: Field, n: nat): Error {
    var tag := |EncodedVarint(8 * f.field + Wire(f))|;
    if n < tag then TruncatedVarint
    else match f
      case Number(_, _) => TruncatedVarint
      case Eight(_, _) => TruncatedFixed64
      case Block(_, bytes) => if n < tag + |EncodedVarint(|bytes|)| then TruncatedVarint else TruncatedLength
      case Four(_, _) => TruncatedFixed32
  }

  lemma FrontOfParts(a: seq<byte>, b: seq<byte>, n: nat)
    requires n <= |a| + |b|
    ensures n <= |a| ==> (a + b)[..n] == a[..n]
    ensures n >= |a| ==> (a + b)[..n][..|a|] == a
  {
  }

  lemma FrontAt(data: seq<byte>, offset: nat, part: seq<byte>)
    requires offset + |part| <= |data| && data[offset..][..|part|] == part
    ensures At(data, offset, part)
  {
  }

  lemma BlockCut(data: seq<byte>, next: nat, bytes: seq<byte>)
    requires |bytes| < Pow128(VARINT_BYTES)
    requires next <= |data| < next + |EncodedVarint(|bytes|)| + |bytes|
    requires data[next..] == (EncodedVarint(|bytes|) + bytes)[..|data| - next]
    ensures |data| - next < |EncodedVarint(|bytes|)| ==> VarintAt(data, next, 0) == Err(TruncatedVarint)
    ensures |data| - next >= |EncodedVarint(|bytes|)| ==>
      VarintAt(data, next, 0) == Ok((|bytes|, next + |EncodedVarint(|bytes|)|))
  {
    hide VarintAt, EncodedVarint, Pow128, At;
    var size, n := EncodedVarint(|bytes|), |data| - next;
    if n < |size| {
      FrontOfParts(size, bytes, n);
      VarintCut(data, next, |bytes|, 0);
    } else {
      FrontOfParts(size, bytes, n);
      FrontAt(data, next, size);
      VarintRoundTrip(data, next, |bytes|, 0);
    }
  }

  /** Every cut inside a well-formed field is refused, with the error of the part that is missing. */
  lemma FieldCut(data: seq<byte>, offset: nat, f: Field)
    requires WellFormed(f) && offset <= |data| < offset + |EncodedField(f)|
    requires data[offset..] == EncodedField(f)[..|data| - offset]
    ensures FieldAt(data, offset) == Err(CutError(f, |data| - offset))
  {
    hide VarintAt, EncodedVarint, Pow128;
    var tag, n := EncodedVarint(8 * f.field + Wire(f)), |data| - offset;
    if n < |tag| {
      assert EncodedField(f)[..n] == tag[..n];
      VarintCut(data, offset, 8 * f.field + Wire(f), 0);
    } else {
      assert data[offset..offset + |tag|] == data[offset..][..|tag|] == tag;
      VarintRoundTrip(data, offset, 8 * f.field + Wire(f), 0);
      assert (8 * f.field + Wire(f)) / 8 == f.field && (8 * f.field + Wire(f)) % 8 == Wire(f);
      var next := offset + |tag|;
      assert data[next..] == data[offset..][|tag|..] == Body(f)[..n - |tag|];
      if f.Number? {
        VarintCut(data, next, f.value, 0);
      } else if f.Block? {
        BlockCut(data, next, f.bytes);
      }
    }
  }

  /** Wire types 3, 4, 6 and 7 are refused whatever follows. */
  lemma OtherWiresRefused(data: seq<byte>, offset: nat, field: nat, wire: nat)
    requires wire == 3 || wire == 4 || wire == 6 || wire == 7
    requires 8 * field + wire < Pow128(VARINT_BYTES) && At(data, offset, EncodedVarint(8 * field + wire))
    ensures FieldAt(data, offset) == Err(UnsupportedWire)
  {
    hide VarintAt, EncodedVarint, Pow128, At;
    VarintRoundTrip(data, offset, 8 * field + wire, 0);
    assert (8 * field + wire) % 8 == wire;
  }

  // ---------------------------------------------------------------- what a message says

  function Interpreted(m: Message, fields: seq<Field>): Message
    decreases fields
  {
    if fields == [] then m else Interpreted(Absorb(m, fields[0]), fields[1..])
  }

  /** Well-formed fields are read one after the other, whatever stands before and after them. */
  lemma {:induction false} FieldsRead(data: seq<byte>, offset: nat, fields: seq<Field>, m: Message)
    requires forall i | 0 <= i < |fields| :: WellFormed(fields[i])
    requires At(data, offset, EncodedFields(fields))
    ensures ParsedFrom(data, offset, m) == ParsedFrom(data, offset + |EncodedFields(fields)|, Interpreted(m, fields))
    decreases |fields|
  {
    hide FieldAt, WellFormed, EncodedField;
    if fields != [] {
      var first := EncodedField(fields[0]);
      AtParts(data, offset, first, EncodedFields(fields[1..]));
      FieldRoundTrip(data, offset, fields[0]);
      FieldsRead(data, offset + |first|, fields[1..], Absorb(m, fields[0]));
    }
  }

  /** The reader understands every well-formed list of fields, whatever their numbers, order and
      repetitions. */
  lemma FieldsUnderstood(data: seq<byte>, offset: nat, fields: seq<Field>, m: Message)
    requires forall i | 0 <= i < |fields| :: WellFormed(fields[i])
    requires offset <= |data| && data[offset..] == EncodedFields(fields)
    ensures ParsedFrom(data, offset, m) == Ok(Interpreted(m, fields))
  {
    hide FieldAt, WellFormed, EncodedFields, Interpreted;
    FieldsRead(data, offset, fields, m);
  }

  /** The value of the last number in field 1. */
  function PortOf(fields: seq<Field>): Option<nat> {
    if fields == [] then None else
      var last := fields[|fields| - 1];
      if last.Number? && last.field == 1 then Some(last.value) else PortOf(fields[..|fields| - 1])
  }

  /** The bytes of the last block in field 2. */
  function PayloadOf(fields: seq<Field>): Option<seq<byte>> {
    if fields == [] then None else
      var last := fields[|fields| - 1];
      if last.Block? && last.field == 2 then Some(last.bytes) else PayloadOf(fields[..|fields| - 1])
  }

  /** The last number or four-byte value in field 6, lowest byte first, and 0 if there is none. */
  function RequestIdOf(fields: seq<Field>): nat
    requires forall i | 0 <= i < |fields| :: WellFormed(fields[i])
  {
    if fields == [] then 0 else
      var last := fields[|fields| - 1];
      if last.Number? && last.field == 6 then last.value
      else if last.Four? && last.field == 6 then
        assert WellFormed(last);
        last.bytes[0] as nat + 256 * last.bytes[1] as nat + 65536 * last.bytes[2] as nat
        + 16777216 * last.bytes[3] as nat
      else RequestIdOf(fields[..|fields| - 1])
  }

  lemma {:induction false} InterpretedLast(m: Message, init: seq<Field>, last: Field)
    ensures Interpreted(m, init + [last]) == Absorb(Interpreted(m, init), last)
    decreases |init|
  {
    hide Absorb;
    if init == [] {
      assert ([] + [last])[1..] == [];
    } else {
      assert (init + [last])[1..] == init[1..] + [last];
      InterpretedLast(Absorb(m, init[0]), init[1..], last);
    }
  }

  lemma FourBytes(bytes: seq<byte>)
    requires |bytes| == 4
    ensures LittleEndian(bytes) == bytes[0] as nat + 256 * bytes[1] as nat + 65536 * bytes[2] as nat
                                 + 16777216 * bytes[3] as nat
  {
    assert bytes[1..][1..] == bytes[2..] && bytes[2..][1..] == bytes[3..] && bytes[3..][1..] == [];
    assert LittleEndian(bytes[3..]) == bytes[3] as nat;
    assert LittleEndian(bytes[2..]) == bytes[2] as nat + 256 * bytes[3] as nat;
    assert LittleEndian(bytes[1..]) == bytes[1] as nat + 256 * LittleEndian(bytes[2..]);
  }

  lemma NothingInterpreted()
    ensures Interpreted(NOTHING, []) == Message(None, None, 0)
  {
  }

  lemma {:induction false} InterpretedAs(fields: seq<Field>)
    requires forall i | 0 <= i < |fields| :: WellFormed(fields[i])
    ensures Interpreted(NOTHING, fields) == Message(PortOf(fields), PayloadOf(fields), RequestIdOf(fields))
  {
    hide Interpreted, LittleEndian, Pow128;
    if fields == [] {
      NothingInterpreted();
    } else {
      var init, last := fields[..|fields| - 1], fields[|fields| - 1];
      assert fields == init + [last];
      InterpretedAs(init);
      InterpretedLast(NOTHING, init, last);
      if last.Four? { FourBytes(last.bytes); }
    }
  }

  /** What the reader makes of any well-formed list of fields: the last port, payload and request id
      in it, refused when port or payload is missing or the port is above 511. */
  lemma MessageMeaning(fields: seq<Field>)
    requires forall i | 0 <= i < |fields| :: WellFormed(fields[i])
    ensures var port, payload := PortOf(fields), PayloadOf(fields);
      Parsed(EncodedFields(fields)) ==
        if port == None || payload == None || port.value > 511 then Err(NotPlausible)
        else Ok(Message(port, payload, RequestIdOf(fields)))
  {
    hide EncodedFields, ParsedFrom, WellFormed, Interpreted, PortOf, PayloadOf, RequestIdOf;
    var data := EncodedFields(fields);
    assert data[0..] == data;
    FieldsUnderstood(data, 0, fields, NOTHING);
    InterpretedAs(fields);
  }

  /** A message that breaks off inside a field is refused, with the error of the missing part. */
  lemma CutMessageRefused(before: seq<Field>, f: Field, n: nat)
    requires forall i | 0 <= i < |before| :: WellFormed(before[i])
    requires WellFormed(f) && 0 < n < |EncodedField(f)|
    ensures Parsed(EncodedFields(before) + EncodedField(f)[..n]) == Err(CutError(f, n))
  {
    hide WellFormed, EncodedFields, EncodedField, CutError, FieldAt;
    var b, part := EncodedFields(before), EncodedField(f)[..n];
    var data := b + part;
    FieldsRead(data, 0, before, NOTHING);
    assert data[|b|..] == part;
    FieldCut(data, |b|, f);
  }

  /** The same outcome, read further along. */
  function Moved<T>(r: Result<(T, nat)>, distance: nat): Result<(T, nat)> {
    if r.Ok? then Ok((r.value.0, r.value.1 + distance)) else r
  }

  lemma {:induction false} VarintMoved(front: seq<byte>, data: seq<byte>, offset: nat, read: nat)
    requires read <= VARINT_BYTES
    ensures VarintAt(front + data, |front| + offset, read) == Moved(VarintAt(data, offset, read), |front|)
    decreases VARINT_BYTES - read
  {
    hide VarintAt;
    if read == VARINT_BYTES {
      VarintLong(data, offset);
      VarintLong(front + data, |front| + offset);
    } else if offset >= |data| {
      VarintShort(data, offset, read);
      VarintShort(front + data, |front| + offset, read);
    } else {
      VarintUnfold(data, offset, read);
      VarintUnfold(front + data, |front| + offset, read);
      VarintMoved(front, data, offset + 1, read + 1);
    }
  }

  lemma SliceMoved(front: seq<byte>, data: seq<byte>, lo: nat, hi: nat)
    requires lo <= hi <= |data|
    ensures (front + data)[|front| + lo..|front| + hi] == data[lo..hi]
  {
  }

  lemma FieldMoved(front: seq<byte>, data: seq<byte>, offset: nat)
    ensures FieldAt(front + data, |front| + offset) == Moved(FieldAt(data, offset), |front|)
  {
    hide VarintAt;
    VarintMoved(front, data, offset, 0);
    var tag := VarintAt(data, offset, 0);
    if tag.Ok? {
      var next := tag.value.1;
      VarintMoved(front, data, next, 0);
      if next + 8 <= |data| { SliceMoved(front, data, next, next + 8); }
      if next + 4 <= |data| { SliceMoved(front, data, next, next + 4); }
      var size := VarintAt(data, next, 0);
      if size.Ok? && size.value.1 + size.value.0 <= |data| {
        SliceMoved(front, data, size.value.1, size.value.1 + size.value.0);
      }
    }
  }

  /** What is read from an offset on depends on the bytes from there on and nothing before. */
  lemma {:induction false} ParsedMoved(front: seq<byte>, data: seq<byte>, offset: nat, m: Message)
    ensures ParsedFrom(front + data, |front| + offset, m) == ParsedFrom(data, offset, m)
    decreases |data| - offset
  {
    hide FieldAt;
    if offset < |data| {
      FieldMoved(front, data, offset);
      var f := FieldAt(data, offset);
      if f.Ok? { ParsedMoved(front, data, f.value.1, Absorb(m, f.value.0)); }
    }
  }

  /** Fields that the message does not use. */
  predicate Ignored(f: Field) {
    f.field != 1 && f.field != 2 && f.field != 6
  }

  lemma {:induction false} IgnoredChangesNothing(m: Message, extra: seq<Field>)
    requires forall i | 0 <= i < |extra| :: Ignored(extra[i])
    ensures Interpreted(m, extra) == m
    decreases extra
  {
    if extra != [] { IgnoredChangesNothing(Absorb(m, extra[0]), extra[1..]); }
  }

  /** Fields with other numbers have no effect behind any fields and in front of any bytes at all:
      bytes that are refused are refused with the same error. */
  lemma UnknownFieldsIgnored(before: seq<Field>, extra: seq<Field>, rest: seq<byte>)
    requires forall i | 0 <= i < |before| :: WellFormed(before[i])
    requires forall i | 0 <= i < |extra| :: WellFormed(extra[i]) && Ignored(extra[i])
    ensures Parsed(EncodedFields(before) + EncodedFields(extra) + rest) == Parsed(EncodedFields(before) + rest)
  {
    hide WellFormed, Ignored, EncodedFields, ParsedFrom;
    var b, x := EncodedFields(before), EncodedFields(extra);
    var m := Interpreted(NOTHING, before);
    FieldsRead(b + x + rest, 0, before, NOTHING);
    FieldsRead(b + x + rest, |b|, extra, m);
    ParsedMoved(b + x, rest, 0, m);
    IgnoredChangesNothing(m, extra);
    FieldsRead(b + rest, 0, before, NOTHING);
    ParsedMoved(b, rest, 0, m);
  }

  // ---------------------------------------------------------------- the data message

  function DataMessage(port: nat, payload: seq<byte>): seq<byte> {
    [0x08 as byte] + EncodedVarint(port) + [0x12 as byte] + EncodedVarint(|payload|) + payload
  }

  method WriteDataMessage(port: nat, payload: seq<byte>) returns (out: seq<byte>)
    ensures out == DataMessage(port, payload)
  {
    hide EncodedVarint;
    var p := EncodeVarint(port);
    var size := EncodeVarint(|payload|);
    out := [0x08 as byte] + p + [0x12 as byte] + size + payload;
  }

  lemma Regroup(a: seq<byte>, b: seq<byte>, c: seq<byte>, d: seq<byte>, e: seq<byte>)
    ensures a + b + c + d + e == (a + b) + (c + (d + e))
  {
  }

  lemma DataMessageFields(port: nat, payload: seq<byte>)
    ensures DataMessage(port, payload) == EncodedFields([Number(1, port), Block(2, payload)])
  {
    var a, b := Number(1, port), Block(2, payload);
    assert EncodedVarint(8 * 1 + Wire(a)) == [0x08 as byte];
    assert EncodedVarint(8 * 2 + Wire(b)) == [0x12 as byte];
    assert [a, b][1..] == [b] && [b][1..] == [];
    assert EncodedFields([b]) == EncodedField(b) + [];
    assert EncodedFields([a, b]) == EncodedField(a) + EncodedField(b);
    hide EncodedVarint;
    assert EncodedField(a) == [0x08 as byte] + EncodedVarint(port);
    assert EncodedField(b) == [0x12 as byte] + (EncodedVarint(|payload|) + payload);
    Regroup([0x08 as byte], EncodedVarint(port), [0x12 as byte], EncodedVarint(|payload|), payload);
  }

  /** A port too large for ten varint bytes is refused as such. */
  lemma HugePortRefused(port: nat, payload: seq<byte>)
    requires port >= Pow128(VARINT_BYTES)
    ensures Parsed(DataMessage(port, payload)) == Err(VarintTooLong)
  {
    hide Pow128, EncodedVarint, VarintAt;
    var data := DataMessage(port, payload);
    var rest := [0x12 as byte] + EncodedVarint(|payload|) + payload;
    assert data == [0x08 as byte] + EncodedVarint(port) + rest;
    assert data[1..1 + |EncodedVarint(port)|] == EncodedVarint(port);
    VarintUnfold(data, 0, 0);
    VarintRoundTrip(data, 1, port, 0);
    assert FieldAt(data, 0) == Err(VarintTooLong);
  }

  lemma WrittenMessageUnderstood(port: nat, payload: seq<byte>)
    requires port < Pow128(VARINT_BYTES) && |payload| < Pow128(VARINT_BYTES)
    ensures Parsed(DataMessage(port, payload)) == Finish(Ok(Message(Some(port), Some(payload), 0)))
  {
    hide EncodedFields, ParsedFrom, DataMessage, Pow128;
    var fields := [Number(1, port), Block(2, payload)];
    DataMessageFields(port, payload);
    SeventyBits();
    var data := DataMessage(port, payload);
    assert data[0..] == data;
    FieldsUnderstood(data, 0, fields, NOTHING);
    var b := Block(2, payload);
    assert fields[1..] == [b] && [b][1..] == [];
    var m := Absorb(NOTHING, Number(1, port));
    assert Interpreted(NOTHING, fields) == Interpreted(m, [b]) == Interpreted(Absorb(m, b), []);
  }

  /** Reading a written message gives the port and payload back if and only if the port is at most
      511; beyond that the reader refuses. */
  lemma DataMessageRoundTrip(port: nat, payload: seq<byte>)
    requires |payload| < Pow128(VARINT_BYTES)
    ensures port <= 511 ==> Parsed(DataMessage(port, payload)) == Ok(Message(Some(port), Some(payload), 0))
    ensures port > 511 ==> Parsed(DataMessage(port, payload)).Err?
  {
    hide EncodedFields, ParsedFrom, DataMessage, Pow128;
    if port >= Pow128(VARINT_BYTES) {
      SeventyBits();
      HugePortRefused(port, payload);
    } else {
      WrittenMessageUnderstood(port, payload);
    }
  }
}
