/**
 * The framing that bincode 1.x writes and reads with `DefaultOptions`: unsigned
 * integers as variable-length integers (one byte below 251, otherwise a tag byte
 * followed by a little-endian literal), `bool` as one byte, and `String` as its
 * length followed by its UTF-8 bytes. Decoders read from the front of a buffer and
 * hand back what is left, as a cursor over the buffer would.
 */
module Wire {

  type byte = x: int | 0 <= x < 256

  /** 2^64: every `u64`/`usize` the framing carries is below this. */
  const U64_LIMIT: nat := 0x1_0000_0000_0000_0000

  /** The largest value written as a single byte, and the tags of the longer forms. */
  const SINGLE_BYTE_MAX: byte := 250
  const U16_TAG: byte := 251
  const U32_TAG: byte := 252
  const U64_TAG: byte := 253

  /**
   * The ways a decode can fail without panicking: the bincode error kinds that the
   * framing can produce, and the custom errors of the actor-payload pipeline.
   */
  datatype Error =
    | UnexpectedEof                          // the buffer ended inside a field
    | InvalidVarintTag(tag: byte)            // 254 (u128 range) or 255 where a u64 was expected
    | InvalidBoolEncoding(value: byte)       // a bool byte other than 0 or 1
    | InvalidUtf8Encoding                    // string bytes that are not UTF-8
    | InvalidFieldTag(tag: byte)             // generic payload value with an unknown field tag
    | NotRegistered(typePath: seq<byte>)     // "... is not registered"
    | ConversionFailed(typePath: seq<byte>)  // "unable to convert ... into actual type"
    | MissingActorBundle(typePath: seq<byte>) // "... doesn't reflect `ActorBundle`"
    | NotAnActorBundle(typePath: seq<byte>)  // "... is not an `ActorBundle`"

  /** Outcomes that abort the process instead of returning an error. */
  datatype PanicReason =
    | MissingFromReflect(typePath: seq<byte>) // a registered type without `ReflectFromReflect`
    | CapacityOverflow                        // `Vec::with_capacity` asked for more than isize::MAX bytes
    | AllocationRefused                       // the allocator refused a reservation (`handle_alloc_error`)

  datatype Failure = Err(error: Error) | Panic(reason: PanicReason)

  /** The result of reading one value: the value and the unread rest, or a failure. */
  datatype Decoded<T> = Ok(value: T, rest: seq<byte>) | Fail(failure: Failure)
  {
    predicate IsFailure() { Fail? }

    function PropagateFailure<U>(): Decoded<U>
      requires Fail?
    {
      Fail(failure)
    }

    function Extract(): (T, seq<byte>)
      requires Ok?
    {
      (value, rest)
    }
  }

  const EOF: Failure := Err(UnexpectedEof)

  // ---------------------------------------------------------------------------
  // Little-endian literals

  function Pow256(k: nat): (r: nat)
    ensures r >= 1
  {
    if k == 0 then 1 else 256 * Pow256(k - 1)
  }

  lemma Pow256Widths()
    ensures Pow256(2) == 0x1_0000
    ensures Pow256(4) == 0x1_0000_0000
    ensures Pow256(8) == U64_LIMIT
  {
    assert Pow256(1) == 256;
    assert Pow256(2) == 0x1_0000;
    assert Pow256(3) == 0x100_0000;
    assert Pow256(4) == 0x1_0000_0000;
    assert Pow256(5) == 0x100_0000_0000;
    assert Pow256(6) == 0x1_0000_0000_0000;
    assert Pow256(7) == 0x100_0000_0000_0000;
  }

  /** The `k` low-order bytes of `n`, least significant first. */
  function LeBytes(n: nat, k: nat): (r: seq<byte>)
    ensures |r| == k
  {
    if k == 0 then [] else [n % 256] + LeBytes(n / 256, k - 1)
  }

  /** The number a little-endian byte string stands for. */
  function LeValue(bs: seq<byte>): (r: nat)
    ensures r < Pow256(|bs|)
  {
    if bs == [] then 0 else bs[0] + 256 * LeValue(bs[1..])
  }

  lemma {:induction false} LeRoundTrip(n: nat, k: nat)
    requires n < Pow256(k)
    ensures LeValue(LeBytes(n, k)) == n
  {
    if k > 0 {
      var r := LeBytes(n, k);
      assert r[1..] == LeBytes(n / 256, k - 1);
      assert n / 256 < Pow256(k - 1);
      LeRoundTrip(n / 256, k - 1);
    }
  }

  /** Reads a `k`-byte little-endian literal (`read_exact` on the cursor). */
  function ReadLe(s: seq<byte>, k: nat): (r: Decoded<nat>)
    ensures r.Ok? <==> |s| >= k
    ensures r.Ok? ==> r.value < Pow256(k) && r.rest == s[k..]
    ensures r.Fail? ==> r.failure == EOF
  {
    if |s| < k then Fail(EOF) else Ok(LeValue(s[..k]), s[k..])
  }

  // ---------------------------------------------------------------------------
  // Variable-length integers (u64 and usize)

  function EncodeVarint(n: nat): (r: seq<byte>)
    requires n < U64_LIMIT
    ensures 1 <= |r| <= 9
  {
    if n <= SINGLE_BYTE_MAX as nat then [n]
    else if n < 0x1_0000 then [U16_TAG] + LeBytes(n, 2)
    else if n < 0x1_0000_0000 then [U32_TAG] + LeBytes(n, 4)
    else [U64_TAG] + LeBytes(n, 8)
  }

  /** `deserialize_varint`: non-minimal forms are accepted, tags 254 and 255 are not. */
  function DecodeVarint(s: seq<byte>): (r: Decoded<nat>)
    ensures r.Ok? ==> r.value < U64_LIMIT && |r.rest| < |s|
    ensures r.Fail? ==> r.failure.Err?
    ensures |s| == 0 ==> r == Fail(EOF)
    ensures |s| > 0 && s[0] > U64_TAG ==> r == Fail(Err(InvalidVarintTag(s[0])))
  {
    Pow256Widths();
    if |s| == 0 then Fail(EOF)
    else if s[0] <= SINGLE_BYTE_MAX then Ok(s[0], s[1..])
    else if s[0] == U16_TAG then ReadLe(s[1..], 2)
    else if s[0] == U32_TAG then ReadLe(s[1..], 4)
    else if s[0] == U64_TAG then ReadLe(s[1..], 8)
    else Fail(Err(InvalidVarintTag(s[0])))
  }

  lemma VarintRoundTrip(n: nat, c: seq<byte>)
    requires n < U64_LIMIT
    ensures DecodeVarint(EncodeVarint(n) + c) == Ok(n, c)
  {
    Pow256Widths();
    var e := EncodeVarint(n);
    var s := e + c;
    if n > SINGLE_BYTE_MAX as nat {
      var k := |e| - 1;
      assert s[1..] == e[1..] + c;
      assert s[1..][..k] == e[1..];
      assert s[1..][k..] == c;
      LeRoundTrip(n, k);
    }
  }

  lemma VarintTruncated(n: nat, k: nat)
    requires n < U64_LIMIT
    requires k < |EncodeVarint(n)|
    ensures DecodeVarint(EncodeVarint(n)[..k]) == Fail(EOF)
  {
  }

  // ---------------------------------------------------------------------------
  // Booleans

  function EncodeBool(b: bool): (r: seq<byte>)
    ensures |r| == 1
  {
    [if b then 1 else 0]
  }

  function DecodeBool(s: seq<byte>): (r: Decoded<bool>)
    ensures r.Ok? <==> |s| > 0 && s[0] <= 1
    ensures r.Ok? ==> r.value == (s[0] == 1) && r.rest == s[1..]
    ensures |s| > 0 && s[0] > 1 ==> r == Fail(Err(InvalidBoolEncoding(s[0])))
  {
    if |s| == 0 then Fail(EOF)
    else if s[0] == 0 then Ok(false, s[1..])
    else if s[0] == 1 then Ok(true, s[1..])
    else Fail(Err(InvalidBoolEncoding(s[0])))
  }

  lemma BoolRoundTrip(b: bool, c: seq<byte>)
    ensures DecodeBool(EncodeBool(b) + c) == Ok(b, c)
  {
    assert (EncodeBool(b) + c)[1..] == c;
  }

  // ---------------------------------------------------------------------------
  // UTF-8 (the check `String::from_utf8` makes; the well-formed byte sequences of
  // Table 3-7 of the Unicode Standard)

  predicate IsContinuation(b: byte) { 0x80 <= b <= 0xBF }

  /** The length of the well-formed scalar at the front of `s`, or 0 if there is none. */
  function ScalarWidth(s: seq<byte>): (w: nat)
    requires |s| > 0
    ensures w <= 4 && w <= |s|
  {
    var b0 := s[0];
    if b0 <= 0x7F then 1
    else if 0xC2 <= b0 <= 0xDF then
      (if |s| >= 2 && IsContinuation(s[1]) then 2 else 0)
    else if 0xE0 <= b0 <= 0xEF then
      var lo := if b0 == 0xE0 then 0xA0 else 0x80;
      var hi := if b0 == 0xED then 0x9F else 0xBF;
      (if |s| >= 3 && lo <= s[1] <= hi && IsContinuation(s[2]) then 3 else 0)
    else if 0xF0 <= b0 <= 0xF4 then
      var lo := if b0 == 0xF0 then 0x90 else 0x80;
      var hi := if b0 == 0xF4 then 0x8F else 0xBF;
      (if |s| >= 4 && lo <= s[1] <= hi && IsContinuation(s[2]) && IsContinuation(s[3]) then 4 else 0)
    else 0
  }

  predicate ValidUtf8(s: seq<byte>)
    decreases |s|
  {
    s == [] || (ScalarWidth(s) > 0 && ValidUtf8(s[ScalarWidth(s)..]))
  }

  lemma {:induction false} AsciiIsUtf8(s: seq<byte>)
    requires forall i :: 0 <= i < |s| ==> s[i] < 0x80
    ensures ValidUtf8(s)
    decreases |s|
  {
    if s != [] {
      assert ScalarWidth(s) == 1;
      AsciiIsUtf8(s[1..]);
    }
  }

  lemma {:induction false} Utf8Concat(a: seq<byte>, b: seq<byte>)
    requires ValidUtf8(a) && ValidUtf8(b)
    ensures ValidUtf8(a + b)
    decreases |a|
  {
    if a != [] {
      var w := ScalarWidth(a);
      assert (a + b)[..w] == a[..w];
      assert ScalarWidth(a + b) == w;
      assert (a + b)[w..] == a[w..] + b;
      Utf8Concat(a[w..], b);
    } else {
      assert a + b == b;
    }
  }

  // ---------------------------------------------------------------------------
  // Strings

  /** What a Rust `String` can hold and bincode can frame. */
  predicate WellFormedString(s: seq<byte>)
  {
    |s| < U64_LIMIT && ValidUtf8(s)
  }

  function EncodeString(s: seq<byte>): (r: seq<byte>)
    requires |s| < U64_LIMIT
    ensures |r| > |s|
  {
    EncodeVarint(|s|) + s
  }

  /** The length, then that many bytes, which must be UTF-8. */
  function DecodeString(s: seq<byte>): (r: Decoded<seq<byte>>)
    ensures r.Ok? ==> WellFormedString(r.value) && |r.rest| < |s|
    ensures r.Fail? ==> r.failure.Err?
    ensures |s| == 0 ==> r == Fail(EOF)
  {
    var (len, afterLen) :- DecodeVarint(s);
    if |afterLen| < len then Fail(EOF)
    else if !ValidUtf8(afterLen[..len]) then Fail(Err(InvalidUtf8Encoding))
    else Ok(afterLen[..len], afterLen[len..])
  }

  lemma StringRoundTrip(str: seq<byte>, c: seq<byte>)
    requires WellFormedString(str)
    ensures DecodeString(EncodeString(str) + c) == Ok(str, c)
  {
    var head := EncodeVarint(|str|);
    AppendAssoc(head, str, c);
    VarintRoundTrip(|str|, str + c);
    assert (str + c)[..|str|] == str;
    assert (str + c)[|str|..] == c;
  }

  lemma StringTruncated(str: seq<byte>, k: nat)
    requires WellFormedString(str)
    requires k < |EncodeString(str)|
    ensures DecodeString(EncodeString(str)[..k]) == Fail(EOF)
  {
    var head := EncodeVarint(|str|);
    if k < |head| {
      PrefixWithin(head, str, k);
      VarintTruncated(|str|, k);
    } else {
      PrefixBeyond(head, str, k);
      VarintRoundTrip(|str|, str[..k - |head|]);
    }
  }

  // ---------------------------------------------------------------------------
  // Sequence facts the decoders' proofs lean on, each stated once in a small context

  lemma AppendAssoc<T>(a: seq<T>, b: seq<T>, c: seq<T>)
    ensures (a + b) + c == a + (b + c)
  {
  }

  lemma AppendNil<T>(a: seq<T>)
    ensures a + [] == a && [] + a == a
  {
  }

  /** A prefix that ends inside the first part. */
  lemma PrefixWithin<T>(a: seq<T>, b: seq<T>, k: nat)
    requires k <= |a|
    ensures (a + b)[..k] == a[..k]
  {
  }

  /** A prefix that ends inside the second part. */
  lemma PrefixBeyond<T>(a: seq<T>, b: seq<T>, k: nat)
    requires |a| <= k <= |a| + |b|
    ensures (a + b)[..k] == a + b[..k - |a|]
  {
  }

  lemma TagThen<T>(t: T, body: seq<T>, c: seq<T>)
    ensures ([t] + body) + c == [t] + (body + c)
    ensures ([t] + (body + c))[0] == t && ([t] + (body + c))[1..] == body + c
  {
  }

  lemma SnocPrefix<T>(s: seq<T>, i: nat)
    requires i < |s|
    ensures s[..i + 1] == s[..i] + [s[i]]
  {
  }

  lemma ConsTail<T>(s: seq<T>)
    requires |s| > 0
    ensures [s[0]] + s[1..] == s
  {
  }

  // ---------------------------------------------------------------------------
  // Runs of values: the elements of a sequence, written and read one after another

  /** The parts written one after another. */
  function Concat(parts: seq<seq<byte>>): seq<byte>
    decreases |parts|
  {
    if parts == [] then [] else parts[0] + Concat(parts[1..])
  }

  lemma {:induction false} ConcatSnoc(parts: seq<seq<byte>>, p: seq<byte>)
    ensures Concat(parts + [p]) == Concat(parts) + p
    decreases |parts|
  {
    if parts == [] {
      assert [p][1..] == [];
      AppendNil(p);
    } else {
      assert (parts + [p])[1..] == parts[1..] + [p];
      ConcatSnoc(parts[1..], p);
      AppendAssoc(parts[0], Concat(parts[1..]), p);
    }
  }

  /** Reads `n` values one after another with `read`; the first failure ends the run. */
  function DecodeMany<T>(read: seq<byte> -> Decoded<T>, s: seq<byte>, n: nat): (r: Decoded<seq<T>>)
    ensures r.Ok? ==> |r.value| == n
    decreases n
  {
    if n == 0 then Ok([], s)
    else
      var (x, mid) :- read(s);
      var (xs, rest) :- DecodeMany(read, mid, n - 1);
      Ok([x] + xs, rest)
  }

  /** Prepends values already read to the outcome of reading the rest of a run. */
  function Prepend<T>(xs: seq<T>, d: Decoded<seq<T>>): Decoded<seq<T>>
  {
    match d
    case Ok(ys, rest) => Ok(xs + ys, rest)
    case Fail(f) => Fail(f)
  }

  lemma PrependNothing<T>(d: Decoded<seq<T>>)
    ensures Prepend([], d) == d
  {
    if d.Ok? {
      AppendNil(d.value);
    }
  }

  lemma PrependTwice<T>(xs: seq<T>, x: T, d: Decoded<seq<T>>)
    ensures Prepend(xs, Prepend([x], d)) == Prepend(xs + [x], d)
  {
    if d.Ok? {
      AppendAssoc(xs, [x], d.value);
    }
  }

  /** A run of `n > 0` values is its first value, then a run of `n - 1`. */
  lemma ManyUnfold<T>(read: seq<byte> -> Decoded<T>, s: seq<byte>, n: nat)
    requires n > 0
    ensures read(s).Fail? ==> DecodeMany(read, s, n) == Fail(read(s).failure)
    ensures read(s).Ok? ==>
      DecodeMany(read, s, n) == Prepend([read(s).value], DecodeMany(read, read(s).rest, n - 1))
  {
  }

  /**
   * The loop that reads a run from a cursor: `count` calls of `read`, each starting
   * where the previous one stopped, returning on the first failure.
   */
  method ReadMany<T>(read: seq<byte> -> Decoded<T>, input: seq<byte>, count: nat) returns (r: Decoded<seq<T>>)
    ensures r == DecodeMany(read, input, count)
  {
    var values: seq<T> := [];
    var cursor := input;
    var i := 0;
    PrependNothing(DecodeMany(read, input, count));
    while i < count
      invariant 0 <= i <= count
      invariant DecodeMany(read, input, count) == Prepend(values, DecodeMany(read, cursor, count - i))
    {
      var next := read(cursor);
      ManyUnfold(read, cursor, count - i);
      if next.Fail? {
        return Fail(next.failure);
      }
      PrependTwice(values, next.value, DecodeMany(read, next.rest, count - i - 1));
      values := values + [next.value];
      cursor := next.rest;
      i := i + 1;
    }
    AppendNil(values);
    r := Ok(values, cursor);
  }

  /** `read` reads each part back as its value, whatever bytes follow the part. */
  ghost predicate ReadsBack<T>(read: seq<byte> -> Decoded<T>, parts: seq<seq<byte>>, xs: seq<T>)
  {
    |parts| == |xs| && forall i, c :: 0 <= i < |parts| ==> read(parts[i] + c) == Ok(xs[i], c)
  }

  /** `read` reports the end of the buffer on every proper prefix of every part. */
  ghost predicate NeedsWhole<T>(read: seq<byte> -> Decoded<T>, parts: seq<seq<byte>>)
  {
    forall i, k: nat :: 0 <= i < |parts| && k < |parts[i]| ==> read(parts[i][..k]) == Fail(EOF)
  }

  lemma ReadsBackTail<T>(read: seq<byte> -> Decoded<T>, parts: seq<seq<byte>>, xs: seq<T>)
    requires ReadsBack(read, parts, xs) && parts != []
    ensures ReadsBack(read, parts[1..], xs[1..])
  {
    forall i, c | 0 <= i < |parts[1..]|
      ensures read(parts[1..][i] + c) == Ok(xs[1..][i], c)
    {
      assert read(parts[i + 1] + c) == Ok(xs[i + 1], c);
    }
  }

  lemma NeedsWholeTail<T>(read: seq<byte> -> Decoded<T>, parts: seq<seq<byte>>)
    requires NeedsWhole(read, parts) && parts != []
    ensures NeedsWhole(read, parts[1..])
  {
    forall i, k: nat | 0 <= i < |parts[1..]| && k < |parts[1..][i]|
      ensures read(parts[1..][i][..k]) == Fail(EOF)
    {
      assert parts[1..][i] == parts[i + 1];
    }
  }

  /** One step of a run: the first value reads, then the remaining ones. */
  lemma ManyStep<T>(read: seq<byte> -> Decoded<T>, s: seq<byte>, xs: seq<T>, mid: seq<byte>, r: Decoded<seq<T>>)
    requires |xs| > 0 && read(s) == Ok(xs[0], mid)
    requires r == DecodeMany(read, mid, |xs| - 1)
    ensures r.Ok? ==> r.value == xs[1..] ==> DecodeMany(read, s, |xs|) == Ok(xs, r.rest)
    ensures r.Fail? ==> DecodeMany(read, s, |xs|) == Fail(r.failure)
  {
    if r.Ok? && r.value == xs[1..] {
      ConsTail(xs);
    }
  }

  /** Reading back a run of written values gives the values and leaves what follows. */
  lemma {:induction false} ManyRoundTrip<T>(read: seq<byte> -> Decoded<T>, parts: seq<seq<byte>>, xs: seq<T>, c: seq<byte>)
    requires ReadsBack(read, parts, xs)
    ensures DecodeMany(read, Concat(parts) + c, |xs|) == Ok(xs, c)
    decreases |xs|
  {
    if xs != [] {
      var tail := Concat(parts[1..]);
      AppendAssoc(parts[0], tail, c);
      assert read(parts[0] + (tail + c)) == Ok(xs[0], tail + c);
      ReadsBackTail(read, parts, xs);
      ManyRoundTrip(read, parts[1..], xs[1..], c);
      ManyStep(read, parts[0] + (tail + c), xs, tail + c, DecodeMany(read, tail + c, |xs| - 1));
    }
  }

  /** A run cut short anywhere reports the end of the buffer. */
  lemma {:induction false} ManyTruncated<T>(read: seq<byte> -> Decoded<T>, parts: seq<seq<byte>>, xs: seq<T>, k: nat)
    requires ReadsBack(read, parts, xs) && NeedsWhole(read, parts)
    requires k < |Concat(parts)|
    ensures DecodeMany(read, Concat(parts)[..k], |xs|) == Fail(EOF)
    decreases |xs|
  {
    var head := parts[0];
    var tail := Concat(parts[1..]);
    if k < |head| {
      PrefixWithin(head, tail, k);
      assert read(head[..k]) == Fail(EOF);
    } else {
      var part := tail[..k - |head|];
      PrefixBeyond(head, tail, k);
      assert read(head + part) == Ok(xs[0], part);
      ReadsBackTail(read, parts, xs);
      NeedsWholeTail(read, parts);
      ManyTruncated(read, parts[1..], xs[1..], k - |head|);
      ManyStep(read, head + part, xs, part, DecodeMany(read, part, |xs| - 1));
    }
  }

  /**
   * A run whose `i`-th value fails to read fails with that value's failure, provided
   * the values before it read back.
   */
  lemma {:induction false} ManyStopsAt<T>(read: seq<byte> -> Decoded<T>, parts: seq<seq<byte>>, xs: seq<T>,
                                          i: nat, f: Failure, c: seq<byte>)
    requires |parts| == |xs| && i < |parts|
    requires ReadsBack(read, parts[..i], xs[..i])
    requires forall c' :: read(parts[i] + c') == Fail(f)
    ensures DecodeMany(read, Concat(parts) + c, |parts|) == Fail(f)
    decreases i
  {
    var tail := Concat(parts[1..]);
    AppendAssoc(parts[0], tail, c);
    if i == 0 {
      assert read(parts[0] + (tail + c)) == Fail(f);
    } else {
      assert read(parts[..i][0] + (tail + c)) == Ok(xs[..i][0], tail + c);
      ReadsBackTail(read, parts[..i], xs[..i]);
      assert parts[..i][1..] == parts[1..][..i - 1];
      assert xs[..i][1..] == xs[1..][..i - 1];
      ManyStopsAt(read, parts[1..], xs[1..], i - 1, f, c);
      ManyStep(read, parts[0] + (tail + c), xs, tail + c, DecodeMany(read, tail + c, |xs| - 1));
    }
  }

  /** Every value of a run that reads is one that `read` produced, so it has `P`. */
  lemma {:induction false} ManyValues<T>(read: seq<byte> -> Decoded<T>, s: seq<byte>, n: nat, P: T -> bool)
    requires forall s' :: read(s').Ok? ==> P(read(s').value)
    ensures DecodeMany(read, s, n).Ok? ==> forall i :: 0 <= i < n ==> P(DecodeMany(read, s, n).value[i])
    decreases n
  {
    if n > 0 && read(s).Ok? {
      var mid := read(s).rest;
      ManyValues(read, mid, n - 1, P);
      var r := DecodeMany(read, s, n);
      if r.Ok? {
        var rest := DecodeMany(read, mid, n - 1);
        assert r.value == [read(s).value] + rest.value;
      }
    }
  }

  /** A run that fails, fails the way `read` did. */
  lemma {:induction false} ManyFailures<T>(read: seq<byte> -> Decoded<T>, s: seq<byte>, n: nat, Q: Failure -> bool)
    requires forall s' :: read(s').Fail? ==> Q(read(s').failure)
    ensures DecodeMany(read, s, n).Fail? ==> Q(DecodeMany(read, s, n).failure)
    decreases n
  {
    if n > 0 && read(s).Ok? {
      ManyFailures(read, read(s).rest, n - 1, Q);
    }
  }
}
