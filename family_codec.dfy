/**
 * The wire codec of the family-creation request: the family's name, the number of
 * actors, one reflected payload per actor, then the `select` flag, each framed by
 * bincode with `DefaultOptions`. The encoder and decoder are registered together as
 * the request's client-trigger codec, so what the client writes is what the server
 * reads.
 */
module FamilyCodec {
  import opened Wire
  import opened Reflect

  /** `FamilyScene`: the family's name and one payload per actor, in order. */
  datatype FamilyScene = FamilyScene(name: seq<byte>, actors: seq<Payload>)

  /** `FamilyCreate`: a client's request to create a family. */
  datatype FamilyCreate = FamilyCreate(scene: FamilyScene, select: bool)

  /** Every payload can be framed by the encoder. */
  predicate AllWellFormed(ps: seq<Payload>)
  {
    forall i :: 0 <= i < |ps| ==> WellFormedPayload(ps[i])
  }

  /** Every payload goes through the registry pipeline without failing. */
  predicate AllAcceptable(reg: Registry, ps: seq<Payload>)
  {
    forall i :: 0 <= i < |ps| ==> Acceptable(reg, ps[i])
  }

  /** A request the encoder can write: a `String` name, a `usize` count, framable payloads. */
  predicate WellFormedRequest(e: FamilyCreate)
  {
    && WellFormedString(e.scene.name)
    && |e.scene.actors| < U64_LIMIT
    && AllWellFormed(e.scene.actors)
  }

  // ---------------------------------------------------------------------------
  // Encoding

  /** Each actor's payload as the reflect serializer writes it, in order. */
  function ActorParts(ps: seq<Payload>): (r: seq<seq<byte>>)
    requires AllWellFormed(ps)
    ensures |r| == |ps| && forall i :: 0 <= i < |ps| ==> r[i] == EncodePayload(ps[i])
  {
    seq(|ps|, i requires 0 <= i < |ps| && WellFormedPayload(ps[i]) => EncodePayload(ps[i]))
  }

  function EncodeActors(ps: seq<Payload>): seq<byte>
    requires AllWellFormed(ps)
  {
    Concat(ActorParts(ps))
  }

  function EncodeActorsAndSelect(ps: seq<Payload>, select: bool): seq<byte>
    requires AllWellFormed(ps)
  {
    EncodeActors(ps) + EncodeBool(select)
  }

  /** Everything after the name: the actor count, the payloads, `select`. */
  function EncodeRequestBody(ps: seq<Payload>, select: bool): seq<byte>
    requires |ps| < U64_LIMIT && AllWellFormed(ps)
  {
    EncodeVarint(|ps|) + EncodeActorsAndSelect(ps, select)
  }

  /** What `serialize_family_create` appends: name, actor count, payloads, `select`. */
  function EncodeFamilyCreate(e: FamilyCreate): (r: seq<byte>)
    requires WellFormedRequest(e)
    ensures |r| == |EncodeString(e.scene.name)| + |EncodeVarint(|e.scene.actors|)| + |EncodeActors(e.scene.actors)| + 1
    ensures r[..|EncodeString(e.scene.name)|] == EncodeString(e.scene.name)
    ensures r[|r| - 1] == if e.select then 1 else 0
  {
    EncodeString(e.scene.name) + EncodeRequestBody(e.scene.actors, e.select)
  }

  /**
   * `serialize_family_create`: appends the request to the bytes already in the
   * cursor. The model covers the `Ok` outcome only: a payload whose reflected value
   * the `ReflectSerializer` refuses makes the source return that error, with the
   * bytes written so far left in the cursor, and the model has no such payload.
   */
  method SerializeFamilyCreate(event: FamilyCreate, cursor: seq<byte>) returns (written: seq<byte>)
    requires WellFormedRequest(event)
    ensures written == cursor + EncodeFamilyCreate(event)
  {
    var actors := event.scene.actors;
    var name := EncodeString(event.scene.name);
    var count := EncodeVarint(|actors|);
    ghost var parts := ActorParts(actors);
    var payloads: seq<byte> := [];
    for i := 0 to |actors|
      invariant payloads == Concat(parts[..i])
    {
      ConcatSnoc(parts[..i], parts[i]);
      SnocPrefix(parts, i);
      payloads := payloads + EncodePayload(actors[i]);
    }
    assert parts[..|actors|] == parts;
    var flag := EncodeBool(event.select);
    written := cursor + (name + (count + (payloads + flag)));
  }

  // ---------------------------------------------------------------------------
  // Decoding

  /** One iteration of the decoder's payload loop, as a reader of the run. */
  function ReadActor(reg: Registry): seq<byte> -> Decoded<Payload>
  {
    s => DecodeActor(reg, s)
  }

  /** Reads exactly `n` payloads, each through the registry; the first failure aborts. */
  function DecodeActors(reg: Registry, s: seq<byte>, n: nat): (r: Decoded<seq<Payload>>)
    ensures r.Ok? ==> |r.value| == n && AllWellFormed(r.value) && AllAcceptable(reg, r.value)
    ensures r.Fail? && r.failure.Panic? ==> r.failure.reason.MissingFromReflect?
  {
    ManyValues(ReadActor(reg), s, n, p => WellFormedPayload(p) && Acceptable(reg, p));
    ManyFailures(ReadActor(reg), s, n, (f: Failure) => f.Panic? ==> f.reason.MissingFromReflect?);
    DecodeMany(ReadActor(reg), s, n)
  }

  /** The payloads, then the `select` flag. */
  function DecodeActorsAndSelect(reg: Registry, s: seq<byte>, count: nat): (r: Decoded<(seq<Payload>, bool)>)
    ensures r.Ok? ==> |r.value.0| == count && AllWellFormed(r.value.0) && AllAcceptable(reg, r.value.0)
    ensures r.Fail? && r.failure.Panic? ==> r.failure.reason.MissingFromReflect?
  {
    var (actors, afterActors) :- DecodeActors(reg, s, count);
    var (select, rest) :- DecodeBool(afterActors);
    Ok((actors, select), rest)
  }

  /** The actor count, then exactly that many payloads, then `select`. */
  function DecodeRequestBody(reg: Registry, s: seq<byte>): (r: Decoded<(seq<Payload>, bool)>)
    ensures r.Ok? ==> |r.value.0| < U64_LIMIT && AllWellFormed(r.value.0) && AllAcceptable(reg, r.value.0)
    ensures r.Fail? && r.failure.Panic? ==> r.failure.reason.MissingFromReflect?
  {
    var (count, afterCount) :- DecodeVarint(s);
    DecodeActorsAndSelect(reg, afterCount, count)
  }

  /**
   * `deserialize_family_create` without the up-front `Vec::with_capacity`: name,
   * count, that many payloads, `select`. The only panic left is a registered type
   * without `ReflectFromReflect`.
   */
  function DecodeFamilyCreate(reg: Registry, s: seq<byte>): (r: Decoded<FamilyCreate>)
    ensures r.Ok? ==> WellFormedRequest(r.value) && AllAcceptable(reg, r.value.scene.actors)
    ensures r.Fail? && r.failure.Panic? ==> r.failure.reason.MissingFromReflect?
  {
    var (name, afterName) :- DecodeString(s);
    var (body, rest) :- DecodeRequestBody(reg, afterName);
    Ok(FamilyCreate(FamilyScene(name, body.0), body.1), rest)
  }

  /**
   * `deserialize_family_create` over a cursor. It follows the corrected decoder: the
   * actor vector grows as payloads arrive instead of being allocated for the
   * declared count first.
   */
  method DeserializeFamilyCreate(reg: Registry, input: seq<byte>) returns (r: Decoded<FamilyCreate>)
    ensures r == DecodeFamilyCreate(reg, input)
  {
    var nameRead := DecodeString(input);
    if nameRead.Fail? {
      return Fail(nameRead.failure);
    }
    var countRead := DecodeVarint(nameRead.rest);
    if countRead.Fail? {
      return Fail(countRead.failure);
    }
    var actorsRead := ReadMany(ReadActor(reg), countRead.rest, countRead.value);
    if actorsRead.Fail? {
      return Fail(actorsRead.failure);
    }
    var selectRead := DecodeBool(actorsRead.rest);
    if selectRead.Fail? {
      return Fail(selectRead.failure);
    }
    r := Ok(FamilyCreate(FamilyScene(nameRead.value, actorsRead.value), selectRead.value), selectRead.rest);
  }

  // ---------------------------------------------------------------------------
  // What the codec promises

  /** Each payload reads back through the registry, whatever follows it. */
  lemma ActorsReadBack(reg: Registry, ps: seq<Payload>)
    requires AllWellFormed(ps) && AllAcceptable(reg, ps)
    ensures ReadsBack(ReadActor(reg), ActorParts(ps), ps)
  {
    var parts := ActorParts(ps);
    forall i, c | 0 <= i < |parts|
      ensures ReadActor(reg)(parts[i] + c) == Ok(ps[i], c)
    {
      ActorRoundTrip(reg, ps[i], c);
    }
  }

  lemma ActorsRoundTrip(reg: Registry, ps: seq<Payload>, c: seq<byte>)
    requires AllWellFormed(ps) && AllAcceptable(reg, ps)
    ensures DecodeActors(reg, EncodeActors(ps) + c, |ps|) == Ok(ps, c)
  {
    ActorsReadBack(reg, ps);
    ManyRoundTrip(ReadActor(reg), ActorParts(ps), ps, c);
  }

  lemma ActorsTruncated(reg: Registry, ps: seq<Payload>, k: nat)
    requires AllWellFormed(ps) && AllAcceptable(reg, ps)
    requires k < |EncodeActors(ps)|
    ensures DecodeActors(reg, EncodeActors(ps)[..k], |ps|) == Fail(EOF)
  {
    var parts := ActorParts(ps);
    ActorsReadBack(reg, ps);
    forall i, j: nat | 0 <= i < |parts| && j < |parts[i]|
      ensures ReadActor(reg)(parts[i][..j]) == Fail(EOF)
    {
      ActorTruncated(reg, ps[i], j);
    }
    ManyTruncated(ReadActor(reg), parts, ps, k);
  }

  /** The first payload the registry rejects decides the outcome; nothing is returned. */
  lemma ActorsFirstRejected(reg: Registry, ps: seq<Payload>, i: nat, c: seq<byte>)
    requires AllWellFormed(ps)
    requires i < |ps| && AllAcceptable(reg, ps[..i]) && !Acceptable(reg, ps[i])
    ensures DecodeActors(reg, EncodeActors(ps) + c, |ps|) == Fail(Resolve(reg, ps[i]).failure)
  {
    var parts := ActorParts(ps);
    var f := Resolve(reg, ps[i]).failure;
    forall j, c' | 0 <= j < |parts[..i]|
      ensures ReadActor(reg)(parts[..i][j] + c') == Ok(ps[..i][j], c')
    {
      ActorRoundTrip(reg, ps[j], c');
    }
    forall c' | true
      ensures ReadActor(reg)(parts[i] + c') == Fail(f)
    {
      ActorRejected(reg, ps[i], c');
    }
    ManyStopsAt(ReadActor(reg), parts, ps, i, f, c);
  }

  lemma ActorsAndSelectRoundTrip(reg: Registry, ps: seq<Payload>, select: bool, c: seq<byte>)
    requires AllWellFormed(ps) && AllAcceptable(reg, ps)
    ensures DecodeActorsAndSelect(reg, EncodeActorsAndSelect(ps, select) + c, |ps|) == Ok((ps, select), c)
  {
    AppendAssoc(EncodeActors(ps), EncodeBool(select), c);
    ActorsRoundTrip(reg, ps, EncodeBool(select) + c);
    BoolRoundTrip(select, c);
  }

  lemma RequestBodyRoundTrip(reg: Registry, ps: seq<Payload>, select: bool, c: seq<byte>)
    requires |ps| < U64_LIMIT && AllWellFormed(ps) && AllAcceptable(reg, ps)
    ensures DecodeRequestBody(reg, EncodeRequestBody(ps, select) + c) == Ok((ps, select), c)
  {
    AppendAssoc(EncodeVarint(|ps|), EncodeActorsAndSelect(ps, select), c);
    VarintRoundTrip(|ps|, EncodeActorsAndSelect(ps, select) + c);
    ActorsAndSelectRoundTrip(reg, ps, select, c);
  }

  /** Decoding what the client wrote gives back the same request, and leaves the rest. */
  lemma FamilyCreateRoundTrip(reg: Registry, e: FamilyCreate, c: seq<byte>)
    requires WellFormedRequest(e) && AllAcceptable(reg, e.scene.actors)
    ensures DecodeFamilyCreate(reg, EncodeFamilyCreate(e) + c) == Ok(e, c)
  {
    var body := EncodeRequestBody(e.scene.actors, e.select);
    AppendAssoc(EncodeString(e.scene.name), body, c);
    StringRoundTrip(e.scene.name, body + c);
    RequestBodyRoundTrip(reg, e.scene.actors, e.select, c);
  }

  lemma ActorsAndSelectTruncated(reg: Registry, ps: seq<Payload>, select: bool, k: nat)
    requires AllWellFormed(ps) && AllAcceptable(reg, ps)
    requires k < |EncodeActorsAndSelect(ps, select)|
    ensures DecodeActorsAndSelect(reg, EncodeActorsAndSelect(ps, select)[..k], |ps|) == Fail(EOF)
  {
    var a := EncodeActors(ps);
    if k < |a| {
      PrefixWithin(a, EncodeBool(select), k);
      ActorsTruncated(reg, ps, k);
    } else {
      PrefixBeyond(a, EncodeBool(select), k);
      AppendNil(a);
      ActorsRoundTrip(reg, ps, []);
    }
  }

  lemma RequestBodyTruncated(reg: Registry, ps: seq<Payload>, select: bool, k: nat)
    requires |ps| < U64_LIMIT && AllWellFormed(ps) && AllAcceptable(reg, ps)
    requires k < |EncodeRequestBody(ps, select)|
    ensures DecodeRequestBody(reg, EncodeRequestBody(ps, select)[..k]) == Fail(EOF)
  {
    if k < |EncodeVarint(|ps|)| {
      PrefixWithin(EncodeVarint(|ps|), EncodeActorsAndSelect(ps, select), k);
      VarintTruncated(|ps|, k);
    } else {
      RequestBodyTruncatedAfterCount(reg, ps, select, k);
    }
  }

  lemma RequestBodyTruncatedAfterCount(reg: Registry, ps: seq<Payload>, select: bool, k: nat)
    requires |ps| < U64_LIMIT && AllWellFormed(ps) && AllAcceptable(reg, ps)
    requires |EncodeVarint(|ps|)| <= k < |EncodeRequestBody(ps, select)|
    ensures DecodeRequestBody(reg, EncodeRequestBody(ps, select)[..k]) == Fail(EOF)
  {
    var b := EncodeVarint(|ps|);
    var d := EncodeActorsAndSelect(ps, select);
    PrefixBeyond(b, d, k);
    VarintRoundTrip(|ps|, d[..k - |b|]);
    ActorsAndSelectTruncated(reg, ps, select, k - |b|);
  }

  /** A buffer that ends before the request does gives an error, never a request. */
  lemma FamilyCreateTruncated(reg: Registry, e: FamilyCreate, k: nat)
    requires WellFormedRequest(e) && AllAcceptable(reg, e.scene.actors)
    requires k < |EncodeFamilyCreate(e)|
    ensures DecodeFamilyCreate(reg, EncodeFamilyCreate(e)[..k]) == Fail(EOF)
  {
    if k < |EncodeString(e.scene.name)| {
      PrefixWithin(EncodeString(e.scene.name), EncodeRequestBody(e.scene.actors, e.select), k);
      StringTruncated(e.scene.name, k);
    } else {
      FamilyCreateTruncatedAfterName(reg, e, k);
    }
  }

  lemma FamilyCreateTruncatedAfterName(reg: Registry, e: FamilyCreate, k: nat)
    requires WellFormedRequest(e) && AllAcceptable(reg, e.scene.actors)
    requires |EncodeString(e.scene.name)| <= k < |EncodeFamilyCreate(e)|
    ensures DecodeFamilyCreate(reg, EncodeFamilyCreate(e)[..k]) == Fail(EOF)
  {
    var a := EncodeString(e.scene.name);
    var body := EncodeRequestBody(e.scene.actors, e.select);
    assert EncodeFamilyCreate(e)[..k] == (a + body)[..k];
    PrefixBeyond(a, body, k);
    StringRoundTrip(e.scene.name, body[..k - |a|]);
    RequestBodyTruncated(reg, e.scene.actors, e.select, k - |a|);
  }

  lemma ActorsAndSelectFirstRejected(reg: Registry, ps: seq<Payload>, select: bool, i: nat, c: seq<byte>)
    requires AllWellFormed(ps)
    requires i < |ps| && AllAcceptable(reg, ps[..i]) && !Acceptable(reg, ps[i])
    ensures DecodeActorsAndSelect(reg, EncodeActorsAndSelect(ps, select) + c, |ps|)
         == Fail(Resolve(reg, ps[i]).failure)
  {
    AppendAssoc(EncodeActors(ps), EncodeBool(select), c);
    ActorsFirstRejected(reg, ps, i, EncodeBool(select) + c);
  }

  lemma RequestBodyFirstRejected(reg: Registry, ps: seq<Payload>, select: bool, i: nat, c: seq<byte>)
    requires |ps| < U64_LIMIT && AllWellFormed(ps)
    requires i < |ps| && AllAcceptable(reg, ps[..i]) && !Acceptable(reg, ps[i])
    ensures DecodeRequestBody(reg, EncodeRequestBody(ps, select) + c) == Fail(Resolve(reg, ps[i]).failure)
  {
    AppendAssoc(EncodeVarint(|ps|), EncodeActorsAndSelect(ps, select), c);
    VarintRoundTrip(|ps|, EncodeActorsAndSelect(ps, select) + c);
    ActorsAndSelectFirstRejected(reg, ps, select, i, c);
  }

  /**
   * A payload the registry rejects aborts the whole request with that payload's
   * failure: no request and no partial actor list comes back.
   */
  lemma FirstRejectedPayloadAbortsRequest(reg: Registry, e: FamilyCreate, i: nat, c: seq<byte>)
    requires WellFormedRequest(e)
    requires i < |e.scene.actors| && AllAcceptable(reg, e.scene.actors[..i])
    requires !Acceptable(reg, e.scene.actors[i])
    ensures DecodeFamilyCreate(reg, EncodeFamilyCreate(e) + c) == Fail(Resolve(reg, e.scene.actors[i]).failure)
  {
    var body := EncodeRequestBody(e.scene.actors, e.select);
    AppendAssoc(EncodeString(e.scene.name), body, c);
    StringRoundTrip(e.scene.name, body + c);
    RequestBodyFirstRejected(reg, e.scene.actors, e.select, i, c);
  }

  /** An actor whose type is missing from the registry fails with "is not registered". */
  lemma UnregisteredPayloadRejected(reg: Registry, e: FamilyCreate, i: nat)
    requires WellFormedRequest(e)
    requires i < |e.scene.actors| && AllAcceptable(reg, e.scene.actors[..i])
    requires e.scene.actors[i].typePath !in reg
    ensures DecodeFamilyCreate(reg, EncodeFamilyCreate(e)) == Fail(Err(NotRegistered(e.scene.actors[i].typePath)))
  {
    FirstRejectedPayloadAbortsRequest(reg, e, i, []);
    ResolveFailures(reg, e.scene.actors[i]);
    assert EncodeFamilyCreate(e) + [] == EncodeFamilyCreate(e);
  }

  /** A registered type without `ReflectFromReflect` panics instead of returning an error. */
  lemma MissingFromReflectPanics(reg: Registry, e: FamilyCreate, i: nat)
    requires WellFormedRequest(e)
    requires i < |e.scene.actors| && AllAcceptable(reg, e.scene.actors[..i])
    requires e.scene.actors[i].typePath in reg && !reg[e.scene.actors[i].typePath].hasFromReflect
    ensures DecodeFamilyCreate(reg, EncodeFamilyCreate(e)) == Fail(Panic(MissingFromReflect(e.scene.actors[i].typePath)))
  {
    FirstRejectedPayloadAbortsRequest(reg, e, i, []);
    ResolveFailures(reg, e.scene.actors[i]);
    assert EncodeFamilyCreate(e) + [] == EncodeFamilyCreate(e);
  }

  // ---------------------------------------------------------------------------
  // The decoder as written: the actor vector is allocated for the declared count

  /** size_of::<Box<dyn ActorBundle>>() on a 64-bit target: a data and a vtable pointer. */
  const BOXED_BUNDLE_SIZE: nat := 16
  const ISIZE_MAX: nat := 0x7FFF_FFFF_FFFF_FFFF

  /** `Vec::with_capacity(count)` panics with "capacity overflow" for this count. */
  predicate CapacityOverflows(count: nat)
  {
    count * BOXED_BUNDLE_SIZE > ISIZE_MAX
  }

  /**
   * `deserialize_family_create` as written: after the count is read,
   * `Vec::with_capacity(actors_count)` runs before any payload is read. `maxAlloc` is
   * the largest reservation the allocator grants. The decoder differs from the
   * corrected one only on a declared count whose reservation overflows `isize::MAX`
   * (a panic) or exceeds what the allocator grants (an abort).
   */
  function DecodeFamilyCreateAsWritten(reg: Registry, s: seq<byte>, maxAlloc: nat): (r: Decoded<FamilyCreate>)
    ensures r != DecodeFamilyCreate(reg, s) ==>
      r == Fail(Panic(CapacityOverflow)) || r == Fail(Panic(AllocationRefused))
  {
    var (name, afterName) :- DecodeString(s);
    var (body, rest) :- DecodeRequestBodyAsWritten(reg, afterName, maxAlloc);
    Ok(FamilyCreate(FamilyScene(name, body.0), body.1), rest)
  }

  function DecodeRequestBodyAsWritten(reg: Registry, s: seq<byte>, maxAlloc: nat): (r: Decoded<(seq<Payload>, bool)>)
    ensures r != DecodeRequestBody(reg, s) ==>
      r == Fail(Panic(CapacityOverflow)) || r == Fail(Panic(AllocationRefused))
  {
    var (count, afterCount) :- DecodeVarint(s);
    if CapacityOverflows(count) then Fail(Panic(CapacityOverflow))
    else if count * BOXED_BUNDLE_SIZE > maxAlloc then Fail(Panic(AllocationRefused))
    else DecodeActorsAndSelect(reg, afterCount, count)
  }

  /** A request that declares `count` actors and holds nothing after the count. */
  function BareCountRequest(count: nat): seq<byte>
    requires count < U64_LIMIT
  {
    EncodeString([]) + EncodeVarint(count)
  }

  /** The corrected decoder reports a bare count of actors as a truncated buffer. */
  lemma {:induction false} BareCountTruncated(reg: Registry, count: nat)
    requires 0 < count < U64_LIMIT
    ensures DecodeString(BareCountRequest(count)) == Ok([], EncodeVarint(count))
    ensures DecodeVarint(EncodeVarint(count)) == Ok(count, [])
    ensures DecodeFamilyCreate(reg, BareCountRequest(count)) == Fail(EOF)
  {
    var body := EncodeVarint(count);
    assert ValidUtf8(body[..0]);
    assert EncodeString([]) == [0];
    VarintRoundTrip(count, []);
    assert body + [] == body;
    ManyUnfold(ReadActor(reg), [], count);
  }

  /**
   * Whatever the allocator grants, a count whose reservation overflows makes the
   * decoder as written panic before it reads a payload; the corrected decoder reports
   * the truncated buffer.
   */
  lemma DeclaredCountPanicsAsWritten(reg: Registry, count: nat, maxAlloc: nat)
    requires count < U64_LIMIT && CapacityOverflows(count)
    ensures DecodeFamilyCreateAsWritten(reg, BareCountRequest(count), maxAlloc) == Fail(Panic(CapacityOverflow))
    ensures DecodeFamilyCreate(reg, BareCountRequest(count)) == Fail(EOF)
  {
    BareCountTruncated(reg, count);
  }

  /**
   * A count whose reservation fits `isize::MAX` but exceeds what the allocator grants
   * aborts the decoder as written; the corrected decoder reports the truncated buffer.
   */
  lemma DeclaredCountAbortsAsWritten(reg: Registry, count: nat, maxAlloc: nat)
    requires count < U64_LIMIT && !CapacityOverflows(count) && count * BOXED_BUNDLE_SIZE > maxAlloc
    ensures DecodeFamilyCreateAsWritten(reg, BareCountRequest(count), maxAlloc) == Fail(Panic(AllocationRefused))
    ensures DecodeFamilyCreate(reg, BareCountRequest(count)) == Fail(EOF)
  {
    BareCountTruncated(reg, count);
  }

  /**
   * A request whose actors fit the allocator decodes the same under both decoders, so
   * an honest client is never affected by the up-front reservation.
   */
  lemma AsWrittenAgreesWithinLimit(reg: Registry, e: FamilyCreate, c: seq<byte>, maxAlloc: nat)
    requires WellFormedRequest(e) && AllAcceptable(reg, e.scene.actors)
    requires |e.scene.actors| * BOXED_BUNDLE_SIZE <= maxAlloc <= ISIZE_MAX
    ensures DecodeFamilyCreateAsWritten(reg, EncodeFamilyCreate(e) + c, maxAlloc) == Ok(e, c)
  {
    FamilyCreateRoundTrip(reg, e, c);
    var afterName := EncodeRequestBody(e.scene.actors, e.select) + c;
    StringRoundTrip(e.scene.name, afterName);
    AppendAssoc(EncodeString(e.scene.name), EncodeRequestBody(e.scene.actors, e.select), c);
    var rest := EncodeActorsAndSelect(e.scene.actors, e.select) + c;
    AppendAssoc(EncodeVarint(|e.scene.actors|), EncodeActorsAndSelect(e.scene.actors, e.select), c);
    VarintRoundTrip(|e.scene.actors|, rest);
  }

  /** Ten bytes: an empty name, then a count of 2^59 written with the 8-byte tag. */
  const OVERSIZED_COUNT_REQUEST: seq<byte> := [0, U64_TAG, 0, 0, 0, 0, 0, 0, 0, 0x08]

  /** 2^59: the smallest count whose `Box<dyn ActorBundle>` allocation overflows. */
  const OVERSIZED_COUNT: nat := 0x0800_0000_0000_0000

  /**
   * A client can make the server panic with ten bytes, whatever the registry holds and
   * whatever the allocator grants; the corrected decoder reports the truncated buffer.
   */
  lemma OversizedCountPanicsAsWritten(reg: Registry, maxAlloc: nat)
    ensures DecodeFamilyCreateAsWritten(reg, OVERSIZED_COUNT_REQUEST, maxAlloc) == Fail(Panic(CapacityOverflow))
    ensures DecodeFamilyCreate(reg, OVERSIZED_COUNT_REQUEST) == Fail(EOF)
  {
    Pow256Widths();
    assert OVERSIZED_COUNT_REQUEST == BareCountRequest(OVERSIZED_COUNT);
    DeclaredCountPanicsAsWritten(reg, OVERSIZED_COUNT, maxAlloc);
  }
}
