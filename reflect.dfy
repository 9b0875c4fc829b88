/**
 * Actor payloads and the type registry that resolves them.
 *
 * A payload is a reflected value: the stable type path of its concrete type and its
 * field values in declaration order. On the wire it is written as a generic value
 * that describes itself (type path, field count, then each field behind a one-byte
 * kind tag); decoding it needs no registry. Turning the generic value into an actor
 * bundle is the registry's job, and each step of it has its own failure.
 */
module Reflect {
  import opened Optional
  import opened Wire

  datatype FieldValue = UInt(n: nat) | Text(text: seq<byte>) | Flag(b: bool)

  datatype FieldKind = UIntKind | TextKind | FlagKind

  /** A reflected value: the type it represents and its fields. */
  datatype Payload = Payload(typePath: seq<byte>, fields: seq<FieldValue>)

  function KindOf(f: FieldValue): FieldKind
  {
    match f
    case UInt(_) => UIntKind
    case Text(_) => TextKind
    case Flag(_) => FlagKind
  }

  /** The kinds of a value's fields, which `from_reflect` compares with its type's. */
  function Shape(fields: seq<FieldValue>): (r: seq<FieldKind>)
    ensures |r| == |fields|
    ensures forall i :: 0 <= i < |fields| ==> r[i] == KindOf(fields[i])
  {
    seq(|fields|, i requires 0 <= i < |fields| => KindOf(fields[i]))
  }

  predicate WellFormedField(f: FieldValue)
  {
    match f
    case UInt(n) => n < U64_LIMIT
    case Text(t) => WellFormedString(t)
    case Flag(_) => true
  }

  /** Every field value can be framed. */
  predicate WellFormedFields(fs: seq<FieldValue>)
  {
    forall i :: 0 <= i < |fs| ==> WellFormedField(fs[i])
  }

  /** A payload whose every number fits a u64 and whose every string is a Rust `String`. */
  predicate WellFormedPayload(p: Payload)
  {
    && WellFormedString(p.typePath)
    && |p.fields| < U64_LIMIT
    && WellFormedFields(p.fields)
  }

  // ---------------------------------------------------------------------------
  // The generic (self-describing) value format

  const UINT_TAG: byte := 0
  const TEXT_TAG: byte := 1
  const FLAG_TAG: byte := 2

  function EncodeField(f: FieldValue): (r: seq<byte>)
    requires WellFormedField(f)
    ensures |r| > 0
  {
    match f
    case UInt(n) => [UINT_TAG] + EncodeVarint(n)
    case Text(t) => [TEXT_TAG] + EncodeString(t)
    case Flag(b) => [FLAG_TAG] + EncodeBool(b)
  }

  function DecodeField(s: seq<byte>): (r: Decoded<FieldValue>)
    ensures r.Ok? ==> WellFormedField(r.value) && |r.rest| < |s|
    ensures r.Fail? ==> r.failure.Err?
    ensures |s| == 0 ==> r == Fail(EOF)
    ensures |s| > 0 && s[0] > FLAG_TAG ==> r == Fail(Err(InvalidFieldTag(s[0])))
  {
    if |s| == 0 then Fail(EOF)
    else if s[0] == UINT_TAG then
      var (n, rest) :- DecodeVarint(s[1..]);
      Ok(UInt(n), rest)
    else if s[0] == TEXT_TAG then
      var (t, rest) :- DecodeString(s[1..]);
      Ok(Text(t), rest)
    else if s[0] == FLAG_TAG then
      var (b, rest) :- DecodeBool(s[1..]);
      Ok(Flag(b), rest)
    else Fail(Err(InvalidFieldTag(s[0])))
  }

  lemma FieldRoundTrip(f: FieldValue, c: seq<byte>)
    requires WellFormedField(f)
    ensures DecodeField(EncodeField(f) + c) == Ok(f, c)
  {
    match f
    case UInt(n) =>
      TagThen(UINT_TAG, EncodeVarint(n), c);
      VarintRoundTrip(n, c);
    case Text(t) =>
      TagThen(TEXT_TAG, EncodeString(t), c);
      StringRoundTrip(t, c);
    case Flag(b) =>
      TagThen(FLAG_TAG, EncodeBool(b), c);
      BoolRoundTrip(b, c);
  }

  lemma FieldTruncated(f: FieldValue, k: nat)
    requires WellFormedField(f)
    requires k < |EncodeField(f)|
    ensures DecodeField(EncodeField(f)[..k]) == Fail(EOF)
  {
    if k > 0 {
      var body := EncodeField(f)[1..];
      assert EncodeField(f)[..k][1..] == body[..k - 1];
      match f
      case UInt(n) => VarintTruncated(n, k - 1);
      case Text(t) => StringTruncated(t, k - 1);
      case Flag(b) =>
    }
  }

  /** Each field's own encoding, in order. */
  function FieldParts(fs: seq<FieldValue>): (r: seq<seq<byte>>)
    requires WellFormedFields(fs)
    ensures |r| == |fs| && forall i :: 0 <= i < |fs| ==> r[i] == EncodeField(fs[i])
  {
    seq(|fs|, i requires 0 <= i < |fs| && WellFormedField(fs[i]) => EncodeField(fs[i]))
  }

  function EncodeFields(fs: seq<FieldValue>): seq<byte>
    requires WellFormedFields(fs)
  {
    Concat(FieldParts(fs))
  }

  /** Reads exactly `n` fields. */
  function DecodeFields(s: seq<byte>, n: nat): (r: Decoded<seq<FieldValue>>)
    ensures r.Ok? ==> |r.value| == n && WellFormedFields(r.value)
    ensures r.Fail? ==> r.failure.Err?
  {
    ManyValues(DecodeField, s, n, WellFormedField);
    ManyFailures(DecodeField, s, n, (f: Failure) => f.Err?);
    DecodeMany(DecodeField, s, n)
  }

  lemma FieldsRoundTrip(fs: seq<FieldValue>, c: seq<byte>)
    requires WellFormedFields(fs)
    ensures DecodeFields(EncodeFields(fs) + c, |fs|) == Ok(fs, c)
  {
    var parts := FieldParts(fs);
    forall i, c' | 0 <= i < |parts|
      ensures DecodeField(parts[i] + c') == Ok(fs[i], c')
    {
      FieldRoundTrip(fs[i], c');
    }
    ManyRoundTrip(DecodeField, parts, fs, c);
  }

  lemma FieldsTruncated(fs: seq<FieldValue>, k: nat)
    requires WellFormedFields(fs)
    requires k < |EncodeFields(fs)|
    ensures DecodeFields(EncodeFields(fs)[..k], |fs|) == Fail(EOF)
  {
    var parts := FieldParts(fs);
    forall i, c' | 0 <= i < |parts|
      ensures DecodeField(parts[i] + c') == Ok(fs[i], c')
    {
      FieldRoundTrip(fs[i], c');
    }
    forall i, j: nat | 0 <= i < |parts| && j < |parts[i]|
      ensures DecodeField(parts[i][..j]) == Fail(EOF)
    {
      FieldTruncated(fs[i], j);
    }
    ManyTruncated(DecodeField, parts, fs, k);
  }

  /** The field count, then the fields. */
  function EncodeFieldList(fs: seq<FieldValue>): seq<byte>
    requires |fs| < U64_LIMIT && WellFormedFields(fs)
  {
    EncodeVarint(|fs|) + EncodeFields(fs)
  }

  /** `ReflectSerializer`: the type path, the field count, then the fields. */
  function EncodePayload(p: Payload): (r: seq<byte>)
    requires WellFormedPayload(p)
    ensures |r| > 0
  {
    EncodeString(p.typePath) + EncodeFieldList(p.fields)
  }

  /** `ReflectDeserializer`: reads one generic value, whatever its type. */
  function DecodeDynamic(s: seq<byte>): (r: Decoded<Payload>)
    ensures r.Ok? ==> WellFormedPayload(r.value)
    ensures r.Fail? ==> r.failure.Err?
    ensures |s| == 0 ==> r == Fail(EOF)
  {
    var (path, afterPath) :- DecodeString(s);
    var (fields, rest) :- DecodeFieldList(afterPath);
    Ok(Payload(path, fields), rest)
  }

  /** The field count, then that many fields. */
  function DecodeFieldList(s: seq<byte>): (r: Decoded<seq<FieldValue>>)
    ensures r.Ok? ==> |r.value| < U64_LIMIT && WellFormedFields(r.value)
    ensures r.Fail? ==> r.failure.Err?
  {
    var (count, afterCount) :- DecodeVarint(s);
    DecodeFields(afterCount, count)
  }

  lemma FieldListRoundTrip(fs: seq<FieldValue>, c: seq<byte>)
    requires |fs| < U64_LIMIT && WellFormedFields(fs)
    ensures DecodeFieldList(EncodeFieldList(fs) + c) == Ok(fs, c)
  {
    AppendAssoc(EncodeVarint(|fs|), EncodeFields(fs), c);
    VarintRoundTrip(|fs|, EncodeFields(fs) + c);
    FieldsRoundTrip(fs, c);
  }

  lemma FieldListTruncated(fs: seq<FieldValue>, k: nat)
    requires |fs| < U64_LIMIT && WellFormedFields(fs)
    requires k < |EncodeFieldList(fs)|
    ensures DecodeFieldList(EncodeFieldList(fs)[..k]) == Fail(EOF)
  {
    if k < |EncodeVarint(|fs|)| {
      PrefixWithin(EncodeVarint(|fs|), EncodeFields(fs), k);
      VarintTruncated(|fs|, k);
    } else {
      FieldListTruncatedAfterCount(fs, k);
    }
  }

  lemma FieldListTruncatedAfterCount(fs: seq<FieldValue>, k: nat)
    requires |fs| < U64_LIMIT && WellFormedFields(fs)
    requires |EncodeVarint(|fs|)| <= k < |EncodeFieldList(fs)|
    ensures DecodeFieldList(EncodeFieldList(fs)[..k]) == Fail(EOF)
  {
    var b := EncodeVarint(|fs|);
    var d := EncodeFields(fs);
    PrefixBeyond(b, d, k);
    VarintRoundTrip(|fs|, d[..k - |b|]);
    FieldsTruncated(fs, k - |b|);
  }

  lemma DynamicRoundTrip(p: Payload, c: seq<byte>)
    requires WellFormedPayload(p)
    ensures DecodeDynamic(EncodePayload(p) + c) == Ok(p, c)
  {
    AppendAssoc(EncodeString(p.typePath), EncodeFieldList(p.fields), c);
    StringRoundTrip(p.typePath, EncodeFieldList(p.fields) + c);
    FieldListRoundTrip(p.fields, c);
  }

  lemma DynamicTruncated(p: Payload, k: nat)
    requires WellFormedPayload(p)
    requires k < |EncodePayload(p)|
    ensures DecodeDynamic(EncodePayload(p)[..k]) == Fail(EOF)
  {
    if k < |EncodeString(p.typePath)| {
      PrefixWithin(EncodeString(p.typePath), EncodeFieldList(p.fields), k);
      StringTruncated(p.typePath, k);
    } else {
      DynamicTruncatedAfterPath(p, k);
    }
  }

  lemma DynamicTruncatedAfterPath(p: Payload, k: nat)
    requires WellFormedPayload(p)
    requires |EncodeString(p.typePath)| <= k < |EncodePayload(p)|
    ensures DecodeDynamic(EncodePayload(p)[..k]) == Fail(EOF)
  {
    var a := EncodeString(p.typePath);
    var body := EncodeFieldList(p.fields);
    PrefixBeyond(a, body, k);
    StringRoundTrip(p.typePath, body[..k - |a|]);
    FieldListTruncated(p.fields, k - |a|);
  }

  // ---------------------------------------------------------------------------
  // The registry and the steps that turn a generic value into an actor bundle

  /**
   * What the registry knows of one type: whether it carries `ReflectFromReflect`,
   * the field kinds a value of it has, and the type that its `ReflectActorBundle`
   * data (if any) downcasts to.
   */
  datatype Registration = Registration(
    hasFromReflect: bool,
    shape: seq<FieldKind>,
    actorBundleFor: Option<seq<byte>>)

  type Registry = map<seq<byte>, Registration>

  datatype Checked = Accept(payload: Payload) | Reject(failure: Failure)

  /** Every step of the pipeline succeeds for this value. */
  predicate Acceptable(reg: Registry, p: Payload)
  {
    && p.typePath in reg
    && reg[p.typePath].hasFromReflect
    && reg[p.typePath].shape == Shape(p.fields)
    && reg[p.typePath].actorBundleFor == Some(p.typePath)
  }

  /**
   * Registry lookup, then `from_reflect`, then the `ReflectActorBundle` lookup, then
   * `get_boxed`; the first step that fails decides the outcome.
   */
  function Resolve(reg: Registry, p: Payload): (r: Checked)
    ensures r.Accept? <==> Acceptable(reg, p)
    ensures r.Accept? ==> r.payload == p
    ensures r.Reject? && r.failure.Panic? ==> r.failure.reason.MissingFromReflect?
  {
    var path := p.typePath;
    if path !in reg then Reject(Err(NotRegistered(path)))
    else
      var registration := reg[path];
      if !registration.hasFromReflect then Reject(Panic(MissingFromReflect(path)))
      else if registration.shape != Shape(p.fields) then Reject(Err(ConversionFailed(path)))
      else if registration.actorBundleFor.None? then Reject(Err(MissingActorBundle(path)))
      else if registration.actorBundleFor.value != path then Reject(Err(NotAnActorBundle(path)))
      else Accept(p)
  }

  /** Each failure of the pipeline names the step that failed, and each failing step gives it. */
  lemma ResolveFailures(reg: Registry, p: Payload)
    ensures Resolve(reg, p) == Reject(Err(NotRegistered(p.typePath))) <==> p.typePath !in reg
    ensures Resolve(reg, p) == Reject(Panic(MissingFromReflect(p.typePath))) <==>
              p.typePath in reg && !reg[p.typePath].hasFromReflect
    ensures Resolve(reg, p) == Reject(Err(ConversionFailed(p.typePath))) <==>
              p.typePath in reg && reg[p.typePath].hasFromReflect && reg[p.typePath].shape != Shape(p.fields)
    ensures Resolve(reg, p) == Reject(Err(MissingActorBundle(p.typePath))) <==>
              p.typePath in reg && reg[p.typePath].hasFromReflect && reg[p.typePath].shape == Shape(p.fields)
              && reg[p.typePath].actorBundleFor.None?
    ensures Resolve(reg, p) == Reject(Err(NotAnActorBundle(p.typePath))) <==>
              p.typePath in reg && reg[p.typePath].hasFromReflect && reg[p.typePath].shape == Shape(p.fields)
              && reg[p.typePath].actorBundleFor.Some? && reg[p.typePath].actorBundleFor.value != p.typePath
  {
  }

  /** One iteration of the decoder's payload loop: read a generic value, then resolve it. */
  function DecodeActor(reg: Registry, s: seq<byte>): (r: Decoded<Payload>)
    ensures r.Ok? ==> WellFormedPayload(r.value) && Acceptable(reg, r.value)
    ensures r.Fail? && r.failure.Panic? ==> r.failure.reason.MissingFromReflect?
  {
    var (dynamic, rest) :- DecodeDynamic(s);
    match Resolve(reg, dynamic)
    case Accept(p) => Ok(p, rest)
    case Reject(f) => Fail(f)
  }

  lemma ActorRoundTrip(reg: Registry, p: Payload, c: seq<byte>)
    requires WellFormedPayload(p) && Acceptable(reg, p)
    ensures DecodeActor(reg, EncodePayload(p) + c) == Ok(p, c)
  {
    DynamicRoundTrip(p, c);
  }

  /** A value the registry cannot resolve fails the read with the pipeline's own failure. */
  lemma ActorRejected(reg: Registry, p: Payload, c: seq<byte>)
    requires WellFormedPayload(p) && !Acceptable(reg, p)
    ensures DecodeActor(reg, EncodePayload(p) + c) == Fail(Resolve(reg, p).failure)
  {
    DynamicRoundTrip(p, c);
  }

  lemma ActorTruncated(reg: Registry, p: Payload, k: nat)
    requires WellFormedPayload(p)
    requires k < |EncodePayload(p)|
    ensures DecodeActor(reg, EncodePayload(p)[..k]) == Fail(EOF)
  {
    DynamicTruncated(p, k);
  }
}
