/** The binary value codec for composite values (PostgreSQL's binary record
    layout) and the size of a length-prefixed data frame.

    A composite is written as a 4-byte big-endian field count followed, for
    each field in declaration order, by the field's 4-byte type oid, its
    4-byte signed length (-1 for NULL) and its payload. Text payloads are the
    raw bytes, int8 payloads eight big-endian bytes. */
module Codec {
  import opened Wrappers
  import opened Bytes
  import opened Streams

  const TextOid: nat := 25      // TEXTOID
  const Int8Oid: nat := 20      // INT8OID
  const RecordOid: nat := 2249  // RECORDOID, the type of anonymous records

  /** How an aggregate is declared on the C++ side. */
  datatype AggregateKind = FusionStruct | HanaStruct | StdTuple | StdPair | BoostTuple

  /** The static type a value is sent as or received into. A struct's oid is
      the one its oid map resolved; tuples and pairs are sent as records. */
  datatype Type =
    | TextT
    | Int8T
    | OptionalT(inner: Type)
    | CompositeT(kind: AggregateKind, oid: nat, fields: seq<Type>)

  datatype Value =
    | Text(bytes: seq<Byte>)
    | Int8(n: int)
    | Null
    | Composite(kind: AggregateKind, fields: seq<Value>)

  datatype CodecError =
    | Truncated                                   // the stream ends inside a frame
    | UnexpectedNull                              // a NULL frame for a type that is not nullable
    | BadSize(size: int, expected: nat)           // a fixed-size value with the wrong length
    | FieldCountMismatch(received: int, expected: nat)
    | OidMismatch(receivedOid: nat, expectedOid: nat)

  /** The oid written in front of a value of type t inside a composite. */
  function TypeOid(t: Type): nat
  {
    match t
    case TextT => TextOid
    case Int8T => Int8Oid
    case OptionalT(inner) => TypeOid(inner)
    case CompositeT(_, oid, _) => oid
  }

  /** The type of a tuple-like aggregate: always sent as a record. */
  function TupleType(kind: AggregateKind, fields: seq<Type>): (t: Type)
    requires kind == StdTuple || kind == StdPair || kind == BoostTuple
    ensures t.CompositeT? && TypeOid(t) == RecordOid && t.fields == fields
  {
    CompositeT(kind, RecordOid, fields)
  }

  /** `size_of`: payload bytes, without the frame's own length header. A
      composite counts its field count and an oid and a length per field;
      an empty optional counts nothing. */
  function SizeOf(v: Value): (n: nat)
    ensures v == Null ==> n == 0
    ensures v.Composite? ==> n >= 4 + 8 * |v.fields|
  {
    match v
    case Text(bytes) => |bytes|
    case Int8(_) => 8
    case Null => 0
    case Composite(_, fields) => 4 + FieldsSize(fields)
  }

  function FieldsSize(fields: seq<Value>): (n: nat)
    ensures n >= 8 * |fields|
  {
    if fields == [] then 0 else 8 + SizeOf(fields[0]) + FieldsSize(fields[1..])
  }

  /** `data_frame_size`: the 4-byte length header plus the payload. */
  function DataFrameSize(v: Value): (n: nat)
    ensures n >= 4
  {
    4 + SizeOf(v)
  }

  /** Every oid of t fits the 4-byte oid field, every field count the
      4-byte count header, and no optional directly holds another optional
      (a present outer optional holding an empty inner one would have no
      frame of its own). */
  predicate TypeFits(t: Type)
    decreases t, 1
  {
    match t
    case TextT => true
    case Int8T => true
    case OptionalT(inner) => !inner.OptionalT? && TypeFits(inner)
    case CompositeT(_, oid, ts) => oid < TwoTo32 && IsInt32(|ts|) && AllFit(ts)
  }

  predicate AllFit(ts: seq<Type>)
    decreases ts, 0
  {
    ts == [] || (TypeFits(ts[0]) && AllFit(ts[1..]))
  }

  /** v is a value of type t whose lengths fit the 4-byte size headers.
      Only an optional holds NULL, and a composite has one value per
      declared field. */
  predicate HasType(v: Value, t: Type): (r: bool)
    ensures r && v == Null ==> t.OptionalT?
    ensures r && t.CompositeT? ==> v.Composite? && |v.fields| == |t.fields|
    decreases t, 1
  {
    IsInt32(SizeOf(v)) && TypeFits(t) &&
    match t
    case TextT => v.Text?
    case Int8T => v.Int8? && InSignedRange(v.n, 8)
    case OptionalT(inner) => v == Null || HasType(v, inner)
    case CompositeT(kind, oid, ts) => v.Composite? && v.kind == kind && FieldsHaveTypes(v.fields, ts)
  }

  /** Field by field, each value has the type declared at its position. */
  predicate FieldsHaveTypes(fs: seq<Value>, ts: seq<Type>)
    decreases ts, 0
  {
    |fs| == |ts| && (ts == [] || (HasType(fs[0], ts[0]) && FieldsHaveTypes(fs[1..], ts[1..])))
  }

  lemma OidFits(t: Type)
    requires TypeFits(t)
    ensures TypeOid(t) < TwoTo32
  {
  }

  /** The length header of a frame: -1 for NULL, the payload size otherwise. */
  function FrameLength(v: Value): (n: int)
    requires IsInt32(SizeOf(v))
    ensures IsInt32(n)
  {
    if v == Null then -1 else SizeOf(v)
  }

  /** `send`: the payload of v. NULL has no payload; a composite's payload
      opens with its field count. */
  function Encode(t: Type, v: Value): (e: seq<Byte>)
    requires HasType(v, t)
    ensures v == Null ==> e == []
    ensures t.CompositeT? ==> |e| >= 4 && e[..4] == Int32BE(|t.fields|)
    decreases t, 1
  {
    match t
    case TextT => v.bytes
    case Int8T => ToSignedBE(v.n, 8)
    case OptionalT(inner) => if v == Null then [] else Encode(inner, v)
    case CompositeT(_, _, ts) => Int32BE(|ts|) + EncodeFields(ts, v.fields)
  }

  /** One field of a composite: oid, length header, payload. The frame
      opens with the oid of the declared type and the length header, -1 for
      NULL, and what follows is the payload. */
  function FieldFrame(t: Type, v: Value): (f: seq<Byte>)
    requires HasType(v, t)
    ensures |f| >= 8 && TypeOid(t) < TwoTo32
    ensures f[..4] == Uint32BE(TypeOid(t)) && f[4..8] == Int32BE(FrameLength(v))
    ensures f[8..] == Encode(t, v)
    decreases t, 2
  {
    OidFits(t);
    Uint32BE(TypeOid(t)) + Int32BE(FrameLength(v)) + (if v == Null then [] else Encode(t, v))
  }

  function EncodeFields(ts: seq<Type>, fs: seq<Value>): seq<Byte>
    requires FieldsHaveTypes(fs, ts)
    decreases ts, 0
  {
    if ts == [] then [] else FieldFrame(ts[0], fs[0]) + EncodeFields(ts[1..], fs[1..])
  }

  /** `send` writes exactly `size_of` bytes. */
  lemma {:induction false} EncodeSizeIsSizeOf(t: Type, v: Value)
    requires HasType(v, t)
    ensures |Encode(t, v)| == SizeOf(v)
    decreases t, 1
  {
    match t
    case TextT =>
    case Int8T =>
    case OptionalT(inner) =>
      if v != Null {
        EncodeSizeIsSizeOf(inner, v);
      }
    case CompositeT(_, _, ts) =>
      EncodeFieldsSize(ts, v.fields);
  }

  lemma {:induction false} EncodeFieldsSize(ts: seq<Type>, fs: seq<Value>)
    requires FieldsHaveTypes(fs, ts)
    ensures |EncodeFields(ts, fs)| == FieldsSize(fs)
    decreases ts, 0
  {
    if ts != [] {
      FieldFrameSize(ts[0], fs[0]);
      EncodeFieldsSize(ts[1..], fs[1..]);
    }
  }

  /** A field's frame is its oid plus a data frame of `data_frame_size` bytes. */
  lemma {:induction false} FieldFrameSize(t: Type, v: Value)
    requires HasType(v, t)
    ensures |FieldFrame(t, v)| == 4 + DataFrameSize(v)
    decreases t, 2
  {
    if v != Null {
      EncodeSizeIsSizeOf(t, v);
    }
  }

  /** Reading a value of type t whose frame declared `size` bytes, from the
      cursor pos; yields the value and the cursor after it. A negative size
      is a NULL frame. */
  function Parse(t: Type, size: int, data: seq<Byte>, pos: nat): (r: Result<(Value, nat), CodecError>)
    requires pos <= |data|
    ensures r.Ok? ==> pos <= r.value.1 <= |data|
    decreases t, 1
  {
    if size < 0 then
      if t.OptionalT? then Ok((Null, pos)) else Err(UnexpectedNull)
    else
      match t
      case OptionalT(inner) => Parse(inner, size, data, pos)
      case TextT =>
        if pos + size <= |data| then Ok((Text(data[pos..pos + size]), pos + size)) else Err(Truncated)
      case Int8T =>
        if size != 8 then Err(BadSize(size, 8))
        else if pos + 8 <= |data| then Ok((Int8(FromSignedBE(data[pos..pos + 8])), pos + 8))
        else Err(Truncated)
      case CompositeT(kind, _, ts) =>
        if pos + 4 > |data| then Err(Truncated)
        else
          var count := FromSignedBE(data[pos..pos + 4]);
          if count != |ts| then Err(FieldCountMismatch(count, |ts|))
          else
            match ParseFields(ts, data, pos + 4)
            case Err(e) => Err(e)
            case Ok((fs, p)) => Ok((Composite(kind, fs), p))
  }

  /** One field of a composite: its oid, which must be the oid of the
      expected type, its length header, then the value. */
  function ParseField(t: Type, data: seq<Byte>, pos: nat): (r: Result<(Value, nat), CodecError>)
    requires pos <= |data|
    ensures r.Ok? ==> pos + 8 <= r.value.1 <= |data|
    ensures r.Ok? ==> FromBE(data[pos..pos + 4]) == TypeOid(t)
    ensures pos + 4 <= |data| && FromBE(data[pos..pos + 4]) != TypeOid(t) ==>
      r == Err(OidMismatch(FromBE(data[pos..pos + 4]), TypeOid(t)))
    decreases t, 2
  {
    if pos + 4 > |data| then Err(Truncated)
    else
      var oid := FromBE(data[pos..pos + 4]);
      if oid != TypeOid(t) then Err(OidMismatch(oid, TypeOid(t)))
      else if pos + 8 > |data| then Err(Truncated)
      else Parse(t, FromSignedBE(data[pos + 4..pos + 8]), data, pos + 8)
  }

  function ParseFields(ts: seq<Type>, data: seq<Byte>, pos: nat): (r: Result<(seq<Value>, nat), CodecError>)
    requires pos <= |data|
    ensures r.Ok? ==> pos <= r.value.1 <= |data| && |r.value.0| == |ts|
    decreases ts, 0
  {
    if ts == [] then Ok(([], pos))
    else
      match ParseField(ts[0], data, pos)
      case Err(e) => Err(e)
      case Ok((v, p)) =>
        match ParseFields(ts[1..], data, p)
        case Err(e) => Err(e)
        case Ok((vs, q)) => Ok(([v] + vs, q))
  }

  lemma SliceSplit(data: seq<Byte>, pos: nat, a: seq<Byte>, b: seq<Byte>)
    requires pos + |a| + |b| <= |data| && data[pos..pos + |a| + |b|] == a + b
    ensures data[pos..pos + |a|] == a
    ensures data[pos + |a|..pos + |a| + |b|] == b
  {
    assert data[pos..pos + |a|] == (data[pos..pos + |a| + |b|])[..|a|];
    assert data[pos + |a|..pos + |a| + |b|] == (data[pos..pos + |a| + |b|])[|a|..];
  }

  /** Round trip: reading back what `send` wrote, with the length the frame
      writer put in front of it, yields the original value and consumes
      exactly the bytes written. */
  lemma {:induction false} ParseEncode(t: Type, v: Value, data: seq<Byte>, pos: nat)
    requires HasType(v, t)
    requires pos + |Encode(t, v)| <= |data| && data[pos..pos + |Encode(t, v)|] == Encode(t, v)
    ensures Parse(t, FrameLength(v), data, pos) == Ok((v, pos + |Encode(t, v)|))
    decreases t, 1
  {
    if v != Null {
      match t
      case TextT =>
      case Int8T =>
        FromSignedBEToSignedBE(v.n, 8);
      case OptionalT(inner) =>
        ParseEncode(inner, v, data, pos);
      case CompositeT(kind, oid, ts) =>
        EncodeSizeIsSizeOf(t, v);
        ParseCompositeEncode(kind, oid, ts, v.fields, data, pos);
    }
  }

  lemma {:induction false} ParseCompositeEncode(kind: AggregateKind, oid: nat, ts: seq<Type>, fs: seq<Value>,
                                                data: seq<Byte>, pos: nat)
    requires HasType(Composite(kind, fs), CompositeT(kind, oid, ts))
    requires var e := Encode(CompositeT(kind, oid, ts), Composite(kind, fs));
      pos + |e| <= |data| && data[pos..pos + |e|] == e
    ensures var e := Encode(CompositeT(kind, oid, ts), Composite(kind, fs));
      Parse(CompositeT(kind, oid, ts), SizeOf(Composite(kind, fs)), data, pos) == Ok((Composite(kind, fs), pos + |e|))
    decreases ts, 1
  {
    var body := EncodeFields(ts, fs);
    SliceSplit(data, pos, Int32BE(|ts|), body);
    Int32RoundTrip(|ts|);
    ParseFieldsEncode(ts, fs, data, pos + 4);
    ParseCompositeStep(kind, oid, ts, SizeOf(Composite(kind, fs)), data, pos);
  }

  /** Reading a composite whose field count matches: the fields follow the
      count header. */
  lemma ParseCompositeStep(kind: AggregateKind, oid: nat, ts: seq<Type>, size: int, data: seq<Byte>, pos: nat)
    requires size >= 0 && pos + 4 <= |data| && FromSignedBE(data[pos..pos + 4]) == |ts|
    ensures Parse(CompositeT(kind, oid, ts), size, data, pos) ==
      match ParseFields(ts, data, pos + 4)
      case Err(e) => Err(e)
      case Ok((fs, p)) => Ok((Composite(kind, fs), p))
  {
  }

  /** Reading a field frame: once its oid and length header are read, the
      value is read with that length from just after the header. */
  lemma ParseFieldHeader(t: Type, len: int, payload: seq<Byte>, data: seq<Byte>, pos: nat)
    requires TypeOid(t) < TwoTo32 && IsInt32(len)
    requires var frame := Uint32BE(TypeOid(t)) + Int32BE(len) + payload;
      pos + |frame| <= |data| && data[pos..pos + |frame|] == frame
    ensures pos + 8 + |payload| <= |data| && data[pos + 8..pos + 8 + |payload|] == payload
    ensures ParseField(t, data, pos) == Parse(t, len, data, pos + 8)
  {
    var oid, header := Uint32BE(TypeOid(t)), Int32BE(len);
    assert oid + header + payload == oid + (header + payload);
    SliceSplit(data, pos, oid, header + payload);
    SliceSplit(data, pos + 4, header, payload);
    Uint32RoundTrip(TypeOid(t));
    Int32RoundTrip(len);
  }

  lemma {:induction false} ParseFieldEncode(t: Type, v: Value, data: seq<Byte>, pos: nat)
    requires HasType(v, t)
    requires pos + |FieldFrame(t, v)| <= |data| && data[pos..pos + |FieldFrame(t, v)|] == FieldFrame(t, v)
    ensures ParseField(t, data, pos) == Ok((v, pos + |FieldFrame(t, v)|))
    decreases t, 2
  {
    OidFits(t);
    if v == Null {
      ParseFieldHeader(t, -1, [], data, pos);
      assert t.OptionalT?;
    } else {
      ParseFieldHeader(t, FrameLength(v), Encode(t, v), data, pos);
      ParseEncode(t, v, data, pos + 8);
    }
  }

  lemma {:induction false} ParseFieldsEncode(ts: seq<Type>, fs: seq<Value>, data: seq<Byte>, pos: nat)
    requires FieldsHaveTypes(fs, ts)
    requires pos + |EncodeFields(ts, fs)| <= |data|
    requires data[pos..pos + |EncodeFields(ts, fs)|] == EncodeFields(ts, fs)
    ensures ParseFields(ts, data, pos) == Ok((fs, pos + |EncodeFields(ts, fs)|))
    decreases ts, 0
  {
    if ts != [] {
      EncodeFieldsCons(ts, fs);
      var head, rest := FieldFrame(ts[0], fs[0]), EncodeFields(ts[1..], fs[1..]);
      var p := pos + |head|;
      SliceSplit(data, pos, head, rest);
      ParseFieldEncode(ts[0], fs[0], data, pos);
      ParseFieldsEncode(ts[1..], fs[1..], data, p);
      ParseFieldsStep(ts, data, pos, fs[0], p);
      assert [fs[0]] + fs[1..] == fs;
    }
  }

  /** The fields from position i on are written as field i's frame followed
      by the fields after it. */
  lemma EncodeFieldsAt(ts: seq<Type>, fs: seq<Value>, i: nat)
    requires i < |ts| == |fs| && FieldsHaveTypes(fs[i..], ts[i..])
    ensures HasType(fs[i], ts[i]) && FieldsHaveTypes(fs[i + 1..], ts[i + 1..])
    ensures EncodeFields(ts[i..], fs[i..]) == FieldFrame(ts[i], fs[i]) + EncodeFields(ts[i + 1..], fs[i + 1..])
  {
    EncodeFieldsCons(ts[i..], fs[i..]);
    assert ts[i..][1..] == ts[i + 1..] && fs[i..][1..] == fs[i + 1..];
  }

  /** A non-empty field list is written as its first field's frame followed
      by the rest. */
  lemma EncodeFieldsCons(ts: seq<Type>, fs: seq<Value>)
    requires FieldsHaveTypes(fs, ts) && ts != []
    ensures HasType(fs[0], ts[0]) && FieldsHaveTypes(fs[1..], ts[1..])
    ensures EncodeFields(ts, fs) == FieldFrame(ts[0], fs[0]) + EncodeFields(ts[1..], fs[1..])
  {
  }

  /** Reading a non-empty field list: the first field, then the rest from
      where it ended. */
  lemma ParseFieldsCons(ts: seq<Type>, data: seq<Byte>, pos: nat)
    requires ts != [] && pos <= |data|
    ensures ParseFields(ts, data, pos) ==
      match ParseField(ts[0], data, pos)
      case Err(e) => Err(e)
      case Ok((v, p)) => Prepend([v], ParseFields(ts[1..], data, p))
  {
  }

  lemma ParseFieldsStep(ts: seq<Type>, data: seq<Byte>, pos: nat, v: Value, p: nat)
    requires ts != [] && pos <= |data|
    requires ParseField(ts[0], data, pos) == Ok((v, p))
    ensures p <= |data|
    ensures ParseFields(ts, data, pos) == Prepend([v], ParseFields(ts[1..], data, p))
  {
  }

  /** A field list result with `vs` put in front of its fields. */
  function Prepend(vs: seq<Value>, r: Result<(seq<Value>, nat), CodecError>): (r': Result<(seq<Value>, nat), CodecError>)
    ensures r'.Ok? <==> r.Ok?
    ensures r.Ok? ==> r'.value == (vs + r.value.0, r.value.1)
    ensures r.Err? ==> r'.error == r.error
  {
    match r
    case Err(e) => Err(e)
    case Ok((fs, p)) => Ok((vs + fs, p))
  }

  /** `data_frame_size` of a present value: the length header plus exactly
      the bytes `send` writes. */
  lemma DataFrameOfPresentValue(t: Type, v: Value)
    requires HasType(v, t) && v != Null
    ensures DataFrameSize(v) == 4 + |Encode(t, v)|
  {
    EncodeSizeIsSizeOf(t, v);
  }

  /** An empty optional: a frame of just the 4-byte header holding -1, and no
      payload, whatever the inner type would have occupied. */
  lemma EmptyOptionalFrame(inner: Type)
    requires TypeFits(OptionalT(inner))
    ensures HasType(Null, OptionalT(inner))
    ensures DataFrameSize(Null) == 4 && FrameLength(Null) == -1
    ensures Encode(OptionalT(inner), Null) == []
  {
  }

  /** Structs, tuples and pairs with the same field types and values are
      written identically: neither the aggregate kind nor the struct's own
      oid reaches the bytes of its body. */
  lemma EncodingIgnoresAggregateKind(k1: AggregateKind, oid1: nat, k2: AggregateKind, oid2: nat,
                                     ts: seq<Type>, fs: seq<Value>)
    requires HasType(Composite(k1, fs), CompositeT(k1, oid1, ts))
    requires HasType(Composite(k2, fs), CompositeT(k2, oid2, ts))
    ensures Encode(CompositeT(k1, oid1, ts), Composite(k1, fs)) == Encode(CompositeT(k2, oid2, ts), Composite(k2, fs))
  {
  }

  /** A composite frame whose field count differs from the arity of the type
      it is read into is rejected before any field is read. */
  lemma FieldCountMismatchRejected(t: Type, size: int, data: seq<Byte>, pos: nat)
    requires t.CompositeT? && size >= 0 && pos + 4 <= |data|
    requires FromSignedBE(data[pos..pos + 4]) != |t.fields|
    ensures Parse(t, size, data, pos) == Err(FieldCountMismatch(FromSignedBE(data[pos..pos + 4]), |t.fields|))
  {
  }

  // The test record { "TEST", 0x0001020304050607 } and its wire form.

  /** A struct is sent under the oid its oid map resolved (0x10 in the
      tests); tuples and pairs as anonymous records. */
  function TestType(kind: AggregateKind): (t: Type)
    ensures t.CompositeT? && t.fields == [TextT, Int8T]
  {
    if kind == FusionStruct || kind == HanaStruct then CompositeT(kind, 0x10, [TextT, Int8T])
    else TupleType(kind, [TextT, Int8T])
  }

  const TestText: seq<Byte> := [0x54, 0x45, 0x53, 0x54]  // "TEST"
  const TestNumber: int := 0x0001020304050607

  function TestValue(kind: AggregateKind): Value
  {
    Composite(kind, [Text(TestText), Int8(TestNumber)])
  }

  const CountBytes: seq<Byte> := [0x00, 0x00, 0x00, 0x02]
  const TextFrameBytes: seq<Byte> := [
    0x00, 0x00, 0x00, 0x19,             // oid: TEXTOID
    0x00, 0x00, 0x00, 0x04,             // size: 4
    0x54, 0x45, 0x53, 0x54]             // "TEST"
  const Int8FrameBytes: seq<Byte> := [
    0x00, 0x00, 0x00, 0x14,             // oid: INT8OID
    0x00, 0x00, 0x00, 0x08,             // size: 8
    0x00, 0x01, 0x02, 0x03, 0x04, 0x05, 0x06, 0x07]
  const TestBytes: seq<Byte> := CountBytes + TextFrameBytes + Int8FrameBytes

  lemma Int8TestPayload()
    ensures InSignedRange(TestNumber, 8)
    ensures ToSignedBE(TestNumber, 8) == [0, 1, 2, 3, 4, 5, 6, 7]
  {
    Pow256Widths();
    assert ToBE(0, 1) == [0];
    assert ToBE(0x01, 2) == [0, 1];
    assert ToBE(0x0102, 3) == [0, 1, 2];
    assert ToBE(0x010203, 4) == [0, 1, 2, 3];
    assert ToBE(0x01020304, 5) == [0, 1, 2, 3, 4];
    assert ToBE(0x0102030405, 6) == [0, 1, 2, 3, 4, 5];
    assert ToBE(0x010203040506, 7) == [0, 1, 2, 3, 4, 5, 6];
    assert ToBE(0x01020304050607, 8) == [0, 1, 2, 3, 4, 5, 6, 7];
  }

  /** A short text field: TEXTOID, its length, its bytes. */
  lemma ShortTextFrame(b: seq<Byte>)
    requires |b| < 256
    ensures HasType(Text(b), TextT)
    ensures FieldFrame(TextT, Text(b)) == [0, 0, 0, 0x19] + [0, 0, 0, |b|] + b
  {
    SmallHeader(TextOid);
    SmallHeader(|b|);
  }

  /** An int8 field: INT8OID, length 8, the eight bytes of the number. */
  lemma Int8Frame(n: int)
    requires InSignedRange(n, 8)
    ensures HasType(Int8(n), Int8T)
    ensures FieldFrame(Int8T, Int8(n)) == [0, 0, 0, 0x14] + [0, 0, 0, 8] + ToSignedBE(n, 8)
  {
    SmallHeader(Int8Oid);
    SmallHeader(8);
  }

  lemma TextFieldFrame()
    ensures HasType(Text(TestText), TextT)
    ensures FieldFrame(TextT, Text(TestText)) == TextFrameBytes
  {
    ShortTextFrame(TestText);
  }

  lemma Int8FieldFrame()
    ensures HasType(Int8(TestNumber), Int8T)
    ensures FieldFrame(Int8T, Int8(TestNumber)) == Int8FrameBytes
  {
    Int8TestPayload();
    Int8Frame(TestNumber);
    var payload := ToSignedBE(TestNumber, 8);
    assert payload == [0, 1, 2, 3, 4, 5, 6, 7];
    assert [0, 0, 0, 0x14] + [0, 0, 0, 8] + payload == Int8FrameBytes;
  }

  /** Every aggregate kind writes the test record as the same 32 bytes, and
      `size_of` says 32. */
  lemma TestRecordEncoding(kind: AggregateKind)
    ensures HasType(TestValue(kind), TestType(kind))
    ensures Encode(TestType(kind), TestValue(kind)) == TestBytes
    ensures SizeOf(TestValue(kind)) == 32 == |TestBytes|
  {
    TextFieldFrame();
    Int8FieldFrame();
    SmallHeader(2);
    var ts, fs := [TextT, Int8T], [Text(TestText), Int8(TestNumber)];
    assert FieldsSize(fs[1..]) == 16;
    assert SizeOf(TestValue(kind)) == 32;
    assert FieldsHaveTypes(fs, ts);
    EncodeFieldsCons(ts, fs);
    EncodeFieldsCons(ts[1..], fs[1..]);
    assert ts[1..][1..] == [];
    assert EncodeFields(ts, fs) == TextFrameBytes + Int8FrameBytes;
  }

  /** Receiving the 32 test bytes into any of the aggregate kinds yields the
      test record. */
  lemma TestRecordDecoding(kind: AggregateKind)
    ensures Parse(TestType(kind), 32, TestBytes, 0) == Ok((TestValue(kind), 32))
  {
    TestRecordEncoding(kind);
    assert TestBytes[0..32] == TestBytes;
    ParseEncode(TestType(kind), TestValue(kind), TestBytes, 0);
  }

  /** The test bytes with a field count of 3 are rejected when read into a
      two-field aggregate. */
  lemma WrongFieldCountRejected(kind: AggregateKind)
    ensures Parse(TestType(kind), 32, [0, 0, 0, 3] + TextFrameBytes + Int8FrameBytes, 0) == Err(FieldCountMismatch(3, 2))
  {
    var data: seq<Byte> := [0, 0, 0, 3] + TextFrameBytes + Int8FrameBytes;
    assert data[0..4] == [0, 0, 0, 3];
    Pow256Widths();
    SmallHeader(3);
    Int32RoundTrip(3);
  }

  /** `send`: append the payload of v to the stream's buffer. */
  method Send(os: OStream, t: Type, v: Value)
    requires HasType(v, t)
    modifies os
    ensures os.buffer == old(os.buffer) + Encode(t, v)
    decreases t, 1
  {
    match t
    case TextT =>
      os.Write(v.bytes);
    case Int8T =>
      os.Write(ToSignedBE(v.n, 8));
    case OptionalT(inner) =>
      if v != Null {
        Send(os, inner, v);
      }
    case CompositeT(_, _, ts) =>
      var before := os.buffer;
      os.Write(Int32BE(|ts|));
      SendFields(os, ts, v.fields);
      AppendAssoc(before, Int32BE(|ts|), EncodeFields(ts, v.fields));
  }

  /** The frames of a composite's fields, in declaration order. */
  method SendFields(os: OStream, ts: seq<Type>, fs: seq<Value>)
    requires FieldsHaveTypes(fs, ts)
    modifies os
    ensures os.buffer == old(os.buffer) + EncodeFields(ts, fs)
    decreases ts, 0
  {
    var i := 0;
    assert ts[0..] == ts && fs[0..] == fs;
    while i < |ts|
      invariant 0 <= i <= |ts|
      invariant FieldsHaveTypes(fs[i..], ts[i..])
      invariant old(os.buffer) + EncodeFields(ts, fs) == os.buffer + EncodeFields(ts[i..], fs[i..])
    {
      EncodeFieldsAt(ts, fs, i);
      ghost var before := os.buffer;
      SendField(os, ts[i], fs[i]);
      AppendAssoc(before, FieldFrame(ts[i], fs[i]), EncodeFields(ts[i + 1..], fs[i + 1..]));
      i := i + 1;
    }
  }

  /** One field of a composite: the oid, the length header (-1 for NULL),
      then the payload. */
  method SendField(os: OStream, t: Type, v: Value)
    requires HasType(v, t)
    modifies os
    ensures os.buffer == old(os.buffer) + FieldFrame(t, v)
    decreases t, 2
  {
    OidFits(t);
    var header := Uint32BE(TypeOid(t)) + Int32BE(FrameLength(v));
    ghost var start := os.buffer;
    os.Write(header);
    if v != Null {
      Send(os, t, v);
      AppendAssoc(start, header, Encode(t, v));
    } else {
      assert header + [] == header;
    }
  }

  /** `recv`: read a value of type t whose frame declared `size` bytes from
      the stream. On success the cursor ends after the value. */
  method Recv(input: IStream, t: Type, size: int) returns (r: Result<Value, CodecError>)
    requires input.Valid()
    modifies input
    ensures input.Valid()
    ensures var p := Parse(t, size, input.data, old(input.pos));
      r.Ok? == p.Ok? &&
      (p.Ok? ==> r.value == p.value.0 && input.pos == p.value.1) &&
      (p.Err? ==> r.error == p.error)
    decreases t, 1
  {
    if size < 0 {
      if t.OptionalT? {
        return Ok(Null);
      }
      return Err(UnexpectedNull);
    }
    match t
    case OptionalT(inner) =>
      r := Recv(input, inner, size);
    case TextT =>
      var bytes := input.Read(size);
      if bytes.None? {
        return Err(Truncated);
      }
      return Ok(Text(bytes.value));
    case Int8T =>
      if size != 8 {
        return Err(BadSize(size, 8));
      }
      var bytes := input.Read(8);
      if bytes.None? {
        return Err(Truncated);
      }
      return Ok(Int8(FromSignedBE(bytes.value)));
    case CompositeT(kind, _, ts) =>
      var header := input.Read(4);
      if header.None? {
        return Err(Truncated);
      }
      var count := FromSignedBE(header.value);
      if count != |ts| {
        return Err(FieldCountMismatch(count, |ts|));
      }
      var fields := RecvFields(input, ts);
      if fields.Err? {
        return Err(fields.error);
      }
      return Ok(Composite(kind, fields.value));
  }

  /** The fields of a composite, each checked against its declared type. */
  method RecvFields(input: IStream, ts: seq<Type>) returns (r: Result<seq<Value>, CodecError>)
    requires input.Valid()
    modifies input
    ensures input.Valid()
    ensures var p := ParseFields(ts, input.data, old(input.pos));
      r.Ok? == p.Ok? &&
      (p.Ok? ==> r.value == p.value.0 && input.pos == p.value.1) &&
      (p.Err? ==> r.error == p.error)
    decreases ts, 0
  {
    var fields: seq<Value> := [];
    var i := 0;
    assert ts[0..] == ts;
    PrependNothing(ParseFields(ts, input.data, input.pos));
    while i < |ts|
      invariant input.Valid() && old(input.pos) <= |input.data|
      invariant 0 <= i <= |ts| && |fields| == i
      invariant ParseFields(ts, input.data, old(input.pos)) == Prepend(fields, ParseFields(ts[i..], input.data, input.pos))
    {
      ghost var here := input.pos;
      var f := RecvField(input, ts[i]);
      if f.Err? {
        ParseFieldsCons(ts[i..], input.data, here);
        return Err(f.error);
      }
      ParseFieldsStep(ts[i..], input.data, here, f.value, input.pos);
      assert ts[i..][1..] == ts[i + 1..];
      PrependTwice(fields, [f.value], ParseFields(ts[i + 1..], input.data, input.pos));
      fields := fields + [f.value];
      i := i + 1;
    }
    return Ok(fields);
  }

  lemma PrependNothing(r: Result<(seq<Value>, nat), CodecError>)
    ensures Prepend([], r) == r
  {
    if r.Ok? {
      assert [] + r.value.0 == r.value.0;
    }
  }

  lemma PrependTwice(a: seq<Value>, b: seq<Value>, r: Result<(seq<Value>, nat), CodecError>)
    ensures Prepend(a, Prepend(b, r)) == Prepend(a + b, r)
  {
    if r.Ok? {
      assert a + (b + r.value.0) == a + b + r.value.0;
    }
  }

  /** One field of a composite: check the oid against the expected type's,
      read the length header, then the value. */
  method RecvField(input: IStream, t: Type) returns (r: Result<Value, CodecError>)
    requires input.Valid()
    modifies input
    ensures input.Valid()
    ensures var p := ParseField(t, input.data, old(input.pos));
      r.Ok? == p.Ok? &&
      (p.Ok? ==> r.value == p.value.0 && input.pos == p.value.1) &&
      (p.Err? ==> r.error == p.error)
    decreases t, 2
  {
    var oidBytes := input.Read(4);
    if oidBytes.None? {
      return Err(Truncated);
    }
    var oid := FromBE(oidBytes.value);
    if oid != TypeOid(t) {
      return Err(OidMismatch(oid, TypeOid(t)));
    }
    var sizeBytes := input.Read(4);
    if sizeBytes.None? {
      return Err(Truncated);
    }
    r := Recv(input, t, FromSignedBE(sizeBytes.value));
  }
}
