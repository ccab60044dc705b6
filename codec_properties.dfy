/**
 * What the wire format promises: each decoder inverts its encoder, the
 * length prefix and the boolean rule behave as designed, malformed input is
 * rejected with the right error, and the decoder builds only trees the
 * encoder can write back.
 */
module CodecProperties {
  import opened Wrappers
  import opened Bytes
  import opened Utf8
  import opened Types
  import opened Codec
  import OrderedMap

  /** Only the byte 1 reads as true; 0, 2, 0xFF and every other byte read as false. */
  lemma LooseBoolRule(b: Byte)
    ensures LooseBool(b) <==> b == 1
    ensures LooseBool(LooseBoolByte(true)) && !LooseBool(LooseBoolByte(false))
  {
  }

  lemma BoolRoundTrip(x: bool, rest: seq<Byte>)
    ensures DecodeBool(EncodeBool(x) + rest) == Ok(Decoded(x, rest))
  {
    assert (EncodeBool(x) + rest)[1..] == rest;
  }

  lemma ReadU32RoundTrip(v: U32, rest: seq<Byte>)
    ensures ReadU32(U32Bytes(v) + rest) == Ok(Decoded(v, rest))
  {
    assert (U32Bytes(v) + rest)[..4] == U32Bytes(v);
    assert (U32Bytes(v) + rest)[4..] == rest;
  }

  lemma ReadU64RoundTrip(v: U64, rest: seq<Byte>)
    ensures ReadU64(U64Bytes(v) + rest) == Ok(Decoded(v, rest))
  {
    assert (U64Bytes(v) + rest)[..8] == U64Bytes(v);
    assert (U64Bytes(v) + rest)[8..] == rest;
  }

  lemma DoubleRoundTrip(d: F64, rest: seq<Byte>)
    ensures DecodeDouble(EncodeDouble(d) + rest) == Ok(Decoded(d, rest))
  {
    ReadU64RoundTrip(d, rest);
  }

  lemma IntegerRoundTrip(i: I64, rest: seq<Byte>)
    ensures DecodeInteger(EncodeInteger(i) + rest) == Ok(Decoded(i, rest))
  {
    ReadU64RoundTrip(I64Bits(i), rest);
  }

  /** 254 still fits in one byte; from 255 on the length takes 0xFF and four bytes. */
  lemma OptimizedU32Boundary()
    ensures WriteOptimizedU32(254) == [254]
    ensures WriteOptimizedU32(255) == [0xFF, 0xFF, 0, 0, 0]
  {
    Pow256Widths();
    var bs := WriteOptimizedU32(255)[1..];
    FromLittleEndianRoundTrip(bs);
    assert bs == LittleEndian(255, 4);
  }

  /** The variable-length reader inverts the writer for every u32. */
  lemma OptimizedU32RoundTrip(v: U32, rest: seq<Byte>)
    ensures ReadOptimizedU32(WriteOptimizedU32(v) + rest) == Ok(Decoded(v, rest))
  {
    var b := WriteOptimizedU32(v) + rest;
    assert b[1..] == WriteOptimizedU32(v)[1..] + rest;
    if v >= 0xFF {
      ReadU32RoundTrip(v, rest);
      assert WriteOptimizedU32(v)[1..] == U32Bytes(v);
    }
  }

  /** The empty string is written as the not-empty sentinel and a zero length. */
  lemma EmptyStringEncoding()
    ensures EncodeString([]) == [0, 0]
  {
  }

  lemma StringRoundTrip(s: Str, rest: seq<Byte>)
    requires |s| < 0x1_0000_0000
    ensures DecodeString(EncodeString(s) + rest) == Ok(Decoded(s, rest))
  {
    var b := EncodeString(s) + rest;
    var w := WriteOptimizedU32(|s|);
    U32CastOfSmall(|s|);
    Regroup([0], w, s, rest);
    assert b[1..] == w + (s + rest);
    OptimizedU32RoundTrip(|s|, s + rest);
    assert (s + rest)[..|s|] == s && (s + rest)[|s|..] == rest;
    DecodeLongString(b, |s|, s + rest);
  }

  /** A string written with sentinel 0: its length, then that many well-formed bytes. */
  lemma DecodeLongString(b: seq<Byte>, n: U32, tail: seq<Byte>)
    requires b != [] && b[0] == 0
    requires ReadOptimizedU32(b[1..]) == Ok(Decoded(n, tail))
    requires n <= |tail| && IsWellFormed(tail[..n])
    ensures DecodeString(b) == Ok(Decoded(tail[..n], tail[n..]))
  {
  }

  /**
   * How a string is read: sentinel 1 is the empty string and consumes one
   * byte; any other sentinel is followed by a length and that many bytes,
   * which must be present and must be well-formed UTF-8.
   */
  lemma DecodeStringCases(b: seq<Byte>)
    ensures b == [] ==> DecodeString(b) == Err(Truncated)
    ensures b != [] && b[0] == 1 ==> DecodeString(b) == Ok(Decoded([], b[1..]))
    ensures b != [] && b[0] != 1 ==>
      match ReadOptimizedU32(b[1..])
      case Err(e) => DecodeString(b) == Err(e)
      case Ok(length) =>
        if |length.rest| < length.value then DecodeString(b) == Err(Truncated)
        else if !IsWellFormed(length.rest[..length.value]) then DecodeString(b) == Err(InvalidUtf8)
        else DecodeString(b) == Ok(Decoded(length.rest[..length.value], length.rest[length.value..]))
  {
  }

  /** A node needs its two header bytes; an unknown tag is an error, never a default node. */
  lemma DecodePropertyHeader(b: seq<Byte>)
    ensures |b| < 2 ==> DecodeProperty(b) == Err(Truncated)
    ensures |b| >= 2 && b[0] > TYPE_INTEGER ==> DecodeProperty(b) == Err(UnknownTypeTag(b[0]))
    ensures |b| >= 2 && b[0] == TYPE_LIST ==> DecodeProperty(b) == Err(UnimplementedVariant)
  {
  }

  /** A decoded node has the variant its tag byte names and its flag read by the loose rule. */
  lemma DecodePropertyTagAndFlag(b: seq<Byte>)
    requires DecodeProperty(b).Ok?
    ensures |b| >= 2 && b[0] <= TYPE_INTEGER && b[0] != TYPE_LIST
    ensures DecodeProperty(b).value.value.anyFlag == (b[1] == 1)
    ensures Tag(DecodeProperty(b).value.value.value) == b[0]
  {
  }

  /** Reading a node back from its encoding gives the node and leaves what followed. */
  lemma {:induction false} PropertyRoundTrip(p: Property, rest: seq<Byte>)
    requires Encodable(p)
    ensures DecodeProperty(EncodeProperty(p) + rest) == Ok(Decoded(p, rest))
    decreases p
  {
    var b := EncodeProperty(p) + rest;
    assert b[..2] == [Tag(p.value), LooseBoolByte(p.anyFlag)];
    assert b[2..] == EncodeValue(p.value) + rest;
    ValueRoundTrip(p.value, rest);
  }

  lemma {:induction false} ValueRoundTrip(v: PropertyValue, rest: seq<Byte>)
    requires Encodable(Property(false, v))
    ensures DecodeValue(Tag(v), EncodeValue(v) + rest) == Ok(Decoded(v, rest))
    decreases v
  {
    match v
    case None => assert EncodeValue(v) + rest == rest;
    case Bool(x) => BoolRoundTrip(x, rest);
    case Double(d) => DoubleRoundTrip(d, rest);
    case String(s) => StringRoundTrip(s, rest);
    case Dictionary(es) => DictionaryRoundTrip(es, rest);
    case Integer(i) => IntegerRoundTrip(i, rest);
  }

  /** The per-entry half of `Encodable` for a dictionary's pairs. */
  predicate EncodableEntries(es: seq<(Str, Property)>) {
    forall i | 0 <= i < |es| :: |es[i].0| < 0x1_0000_0000 && Encodable(es[i].1)
  }

  /** A dictionary decodes to the same pairs in the same order. */
  lemma {:induction false} DictionaryRoundTrip(es: seq<(Str, Property)>, rest: seq<Byte>)
    requires Encodable(Property(false, Dictionary(es)))
    ensures DecodeDictionary(EncodeDictionary(es) + rest) == Ok(Decoded(es, rest))
    decreases Dictionary(es), |es| + 1
  {
    EncodableDictionaryParts(es);
    DictionaryCount(es, rest);
    UniqueKeysAreFresh(es, 0, []);
    EntriesRoundTrip(es, 0, [], rest);
    assert [] + es[0..] == es;
  }

  /** The dictionary decoder reads back the count and hands the pairs to its loop. */
  lemma DictionaryCount(es: seq<(Str, Property)>, rest: seq<Byte>)
    requires |es| < 0x1_0000_0000
    requires forall i | 0 <= i < |es| :: ListFree(es[i].1)
    ensures DecodeDictionary(EncodeDictionary(es) + rest) == DecodeEntries(EncodeEntries(es, 0) + rest, |es|, [])
  {
    var body := EncodeEntries(es, 0) + rest;
    U32CastOfSmall(|es|);
    assert EncodeDictionary(es) + rest == U32Bytes(|es|) + body;
    CountThenEntries(|es|, body);
  }

  lemma CountThenEntries(count: U32, body: seq<Byte>)
    ensures DecodeDictionary(U32Bytes(count) + body) == DecodeEntries(body, count, [])
  {
    ReadU32RoundTrip(count, body);
  }

  /** What `Encodable` asks of a dictionary, taken apart. */
  lemma EncodableDictionaryParts(es: seq<(Str, Property)>)
    requires Encodable(Property(false, Dictionary(es)))
    ensures |es| < 0x1_0000_0000 && OrderedMap.UniqueKeys(es) && EncodableEntries(es)
  {
  }

  /** One turn of the dictionary decoder's loop: a key, then its node, inserted into the map. */
  lemma DecodeEntriesStep(b: seq<Byte>, n: nat, acc: seq<(Str, Property)>, k: Str, v: Property, afterKey: seq<Byte>, rest: seq<Byte>)
    requires n > 0
    requires DecodeString(b) == Ok(Decoded(k, afterKey))
    requires DecodeProperty(afterKey) == Ok(Decoded(v, rest))
    ensures DecodeEntries(b, n, acc) == DecodeEntries(rest, n - 1, OrderedMap.Insert(acc, k, v))
  {
  }

  /**
   * Inserting es[from], es[from + 1], ... one after another into acc always
   * meets a key that is not there yet.
   */
  predicate FreshKeys(es: seq<(Str, Property)>, from: nat, acc: seq<(Str, Property)>)
    decreases |es| - from
  {
    from >= |es| || (es[from].0 !in OrderedMap.Keys(acc) && FreshKeys(es, from + 1, acc + [es[from]]))
  }

  /** Distinct keys, none of them in acc, are fresh all the way along. */
  lemma {:induction false} UniqueKeysAreFresh(es: seq<(Str, Property)>, from: nat, acc: seq<(Str, Property)>)
    requires from <= |es|
    requires OrderedMap.UniqueKeys(es)
    requires forall i | from <= i < |es| :: es[i].0 !in OrderedMap.Keys(acc)
    ensures FreshKeys(es, from, acc)
    decreases |es| - from
  {
    if from < |es| {
      KeysStayFresh(es, from, acc);
      UniqueKeysAreFresh(es, from + 1, acc + [es[from]]);
    }
  }

  /**
   * The loop of the dictionary decoder: reading the encodings of es[from..]
   * onto a map that holds none of their keys appends them in order.
   */
  lemma {:induction false} EntriesRoundTrip(es: seq<(Str, Property)>, from: nat, acc: seq<(Str, Property)>, rest: seq<Byte>)
    requires from <= |es|
    requires EncodableEntries(es) && FreshKeys(es, from, acc)
    ensures DecodeEntries(EncodeEntries(es, from) + rest, |es| - from, acc) == Ok(Decoded(acc + es[from..], rest))
    decreases Dictionary(es), |es| - from, 2
  {
    if from < |es| {
      EntriesRoundTripCons(es, from, acc, rest);
    } else {
      EntriesRoundTripDone(es, acc, rest);
    }
  }

  /** A non-empty remainder: one pair by the step lemma, the others by the loop lemma. */
  lemma EntriesRoundTripCons(es: seq<(Str, Property)>, from: nat, acc: seq<(Str, Property)>, rest: seq<Byte>)
    requires from < |es|
    requires EncodableEntries(es) && FreshKeys(es, from, acc)
    ensures DecodeEntries(EncodeEntries(es, from) + rest, |es| - from, acc) == Ok(Decoded(acc + es[from..], rest))
    decreases Dictionary(es), |es| - from, 1
  {
    var acc' := acc + [es[from]];
    EntriesRoundTripStep(es, from, acc, rest);
    EntriesRoundTrip(es, from + 1, acc', rest);
    AppendNext(acc, es, from);
    calc {
      DecodeEntries(EncodeEntries(es, from) + rest, |es| - from, acc);
      DecodeEntries(EncodeEntries(es, from + 1) + rest, |es| - (from + 1), acc');
      Ok(Decoded(acc' + es[from + 1..], rest));
    }
  }

  /** Once every pair has been read, the loop stops and leaves the rest of the input alone. */
  lemma EntriesRoundTripDone(es: seq<(Str, Property)>, acc: seq<(Str, Property)>, rest: seq<Byte>)
    requires forall i | 0 <= i < |es| :: ListFree(es[i].1)
    ensures DecodeEntries(EncodeEntries(es, |es|) + rest, 0, acc) == Ok(Decoded(acc + es[|es|..], rest))
  {
    assert EncodeEntries(es, |es|) + rest == rest;
    assert acc + es[|es|..] == acc;
  }

  /** One pair of the loop: its key and node decode back and land at the end of the map. */
  lemma EntriesRoundTripStep(es: seq<(Str, Property)>, from: nat, acc: seq<(Str, Property)>, rest: seq<Byte>)
    requires from < |es|
    requires EncodableEntries(es)
    requires es[from].0 !in OrderedMap.Keys(acc)
    ensures DecodeEntries(EncodeEntries(es, from) + rest, |es| - from, acc)
         == DecodeEntries(EncodeEntries(es, from + 1) + rest, |es| - from - 1, acc + [es[from]])
    decreases Dictionary(es), |es| - from, 0
  {
    var k, v := es[from].0, es[from].1;
    var tail := EncodeEntries(es, from + 1) + rest;
    var afterKey := EncodeProperty(v) + tail;
    EncodeEntriesUnfold(es, from, rest);
    StringRoundTrip(k, afterKey);
    PropertyRoundTrip(v, tail);
    DecodeEntriesStep(EncodeString(k) + afterKey, |es| - from, acc, k, v, afterKey, tail);
    assert OrderedMap.Insert(acc, k, v) == acc + [es[from]];
  }

  lemma AppendNext<T>(a: seq<T>, s: seq<T>, i: nat)
    requires i < |s|
    ensures (a + [s[i]]) + s[i + 1..] == a + s[i..]
  {
    assert s[i..] == [s[i]] + s[i + 1..];
  }

  lemma EncodeEntriesUnfold(es: seq<(Str, Property)>, from: nat, rest: seq<Byte>)
    requires from < |es|
    requires forall i | from <= i < |es| :: ListFree(es[i].1)
    ensures EncodeEntries(es, from) + rest ==
      EncodeString(es[from].0) + (EncodeProperty(es[from].1) + (EncodeEntries(es, from + 1) + rest))
  {
  }

  /** Appending es[from] to a map that holds none of the keys of es[from..] leaves the keys of es[from + 1..] fresh. */
  lemma KeysStayFresh(es: seq<(Str, Property)>, from: nat, acc: seq<(Str, Property)>)
    requires from < |es|
    requires OrderedMap.UniqueKeys(es)
    requires forall i | from <= i < |es| :: es[i].0 !in OrderedMap.Keys(acc)
    ensures forall i | from + 1 <= i < |es| :: es[i].0 !in OrderedMap.Keys(acc + [es[from]])
  {
    assert OrderedMap.Keys(acc + [es[from]]) == OrderedMap.Keys(acc) + [es[from].0];
  }

  lemma VersionRoundTrip(v: FactorioVersion, rest: seq<Byte>)
    ensures DecodeVersion(EncodeVersion(v) + rest) == Ok(Decoded(v, rest))
  {
    var b := EncodeVersion(v) + rest;
    var w := b[..8];
    assert w == EncodeVersion(v);
    assert w[0..2] == U16Bytes(v.major);
    assert w[2..4] == U16Bytes(v.minor);
    assert w[4..6] == U16Bytes(v.patch);
    assert w[6..8] == U16Bytes(v.build);
    assert b[0..2] == U16Bytes(v.major);
    assert b[2..4] == U16Bytes(v.minor);
    assert b[4..6] == U16Bytes(v.patch);
    assert b[6..8] == U16Bytes(v.build);
    assert b[8..] == rest;
  }

  /** A whole file decodes to the settings it was written from; trailing bytes are left over. */
  lemma SettingsRoundTrip(s: Settings, rest: seq<Byte>)
    requires Encodable(s.properties)
    ensures DecodeSettings(EncodeSettings(s) + rest) == Ok(Decoded(s, rest))
  {
    var root := EncodeProperty(s.properties) + rest;
    assert EncodeSettings(s) + rest == EncodeVersion(s.version) + ([0] + root);
    VersionRoundTrip(s.version, [0] + root);
    PropertyRoundTrip(s.properties, rest);
  }

  /** Eight header bytes, then the reserved byte, which must be 0. */
  lemma DecodeSettingsHeader(b: seq<Byte>)
    ensures |b| < 9 ==> DecodeSettings(b) == Err(Truncated)
    ensures |b| >= 9 && b[8] != 0 ==> DecodeSettings(b) == Err(InvalidHeaderByte(b[8]))
    ensures DecodeSettings(b).Ok? ==>
      && b[8] == 0
      && DecodeSettings(b).value.value.version == DecodeVersion(b).value.value
      && DecodeProperty(b[9..]) == Ok(Decoded(DecodeSettings(b).value.value.properties, DecodeSettings(b).value.rest))
  {
    if |b| >= 9 {
      assert b[8..][1..] == b[9..];
    }
  }

  // ---------------------------------------------------------------------
  // The decoder only builds trees that the encoder can write back

  lemma {:induction false} DecodePropertyEncodable(b: seq<Byte>)
    ensures DecodeProperty(b).Ok? ==> Encodable(DecodeProperty(b).value.value)
    decreases |b|, 1
  {
    if |b| >= 2 && b[0] == TYPE_DICTIONARY {
      DecodeDictionaryEncodable(b[2..]);
    }
  }

  lemma {:induction false} DecodeDictionaryEncodable(b: seq<Byte>)
    ensures DecodeDictionary(b).Ok? ==> Encodable(Property(false, Dictionary(DecodeDictionary(b).value.value)))
    decreases |b|, 2
  {
    if |b| >= 4 {
      var count := ReadU32(b).value;
      if DecodeDictionary(b).Ok? {
        var d := DecodeDictionary(b).value;
        DecodeEntriesEncodable(count.rest, count.value, [], d.value, d.rest);
      }
    }
  }

  lemma {:induction false} DecodeEntriesEncodable(b: seq<Byte>, n: nat, acc: seq<(Str, Property)>, es: seq<(Str, Property)>, rest: seq<Byte>)
    requires |acc| + n < 0x1_0000_0000
    requires OrderedMap.UniqueKeys(acc) && EncodableEntries(acc)
    requires DecodeEntries(b, n, acc) == Ok(Decoded(es, rest))
    ensures |es| < 0x1_0000_0000 && OrderedMap.UniqueKeys(es) && EncodableEntries(es)
    decreases |b|, 0, 1
  {
    if n > 0 {
      DecodeEntriesEncodableCons(b, n, acc, es, rest);
    }
  }

  /** One pair read by the loop is encodable, so the map stays encodable. */
  lemma {:induction false} DecodeEntriesEncodableCons(b: seq<Byte>, n: nat, acc: seq<(Str, Property)>, es: seq<(Str, Property)>, rest: seq<Byte>)
    requires n > 0 && |acc| + n < 0x1_0000_0000
    requires OrderedMap.UniqueKeys(acc) && EncodableEntries(acc)
    requires DecodeEntries(b, n, acc) == Ok(Decoded(es, rest))
    ensures |es| < 0x1_0000_0000 && OrderedMap.UniqueKeys(es) && EncodableEntries(es)
    decreases |b|, 0, 0
  {
    DecodeEntriesOk(b, n, acc);
    var name := DecodeString(b).value;
    var value := DecodeProperty(name.rest).value;
    DecodePropertyEncodable(name.rest);
    InsertEncodable(acc, name.value, value.value);
    DecodeEntriesEncodable(value.rest, n - 1, OrderedMap.Insert(acc, name.value, value.value), es, rest);
  }

  /** A loop that succeeds read a key and a node, and went on from there. */
  lemma DecodeEntriesOk(b: seq<Byte>, n: nat, acc: seq<(Str, Property)>)
    requires n > 0 && DecodeEntries(b, n, acc).Ok?
    ensures DecodeString(b).Ok?
    ensures var name := DecodeString(b).value;
      && DecodeProperty(name.rest).Ok?
      && var value := DecodeProperty(name.rest).value;
        DecodeEntries(b, n, acc) == DecodeEntries(value.rest, n - 1, OrderedMap.Insert(acc, name.value, value.value))
  {
  }

  /** Inserting an encodable pair keeps the map's keys distinct and its pairs encodable. */
  lemma InsertEncodable(acc: seq<(Str, Property)>, k: Str, v: Property)
    requires OrderedMap.UniqueKeys(acc) && EncodableEntries(acc)
    requires |k| < 0x1_0000_0000 && Encodable(v)
    ensures var acc' := OrderedMap.Insert(acc, k, v);
      |acc'| <= |acc| + 1 && OrderedMap.UniqueKeys(acc') && EncodableEntries(acc')
  {
    OrderedMap.InsertKeepsUniqueKeys(acc, k, v);
    OrderedMap.InsertElements(acc, k, v);
  }

  /** Whatever the decoder accepts, re-encoding it gives bytes that decode to the same tree. */
  lemma ReencodeDecoded(b: seq<Byte>)
    requires DecodeProperty(b).Ok?
    ensures Encodable(DecodeProperty(b).value.value)
    ensures var d := DecodeProperty(b).value;
      DecodeProperty(EncodeProperty(d.value) + d.rest) == Ok(d)
  {
    DecodePropertyEncodable(b);
    var d := DecodeProperty(b).value;
    PropertyRoundTrip(d.value, d.rest);
  }
}
