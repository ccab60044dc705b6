/**
 * The property-tree wire format of `mod-settings.dat`: the data model, an
 * encoder to bytes and a decoder from bytes, written as functions. A decoder
 * returns the value it read and the input that follows it.
 */
module Codec {
  import opened Wrappers
  import opened Bytes
  import opened Utf8
  import opened Types
  import OrderedMap

  const TYPE_NONE: Byte := 0
  const TYPE_BOOL: Byte := 1
  const TYPE_DOUBLE: Byte := 2
  const TYPE_STRING: Byte := 3
  const TYPE_LIST: Byte := 4
  const TYPE_DICTIONARY: Byte := 5
  const TYPE_INTEGER: Byte := 6

  /** An IEEE-754 double as its 64-bit pattern; the codec only copies it. */
  type F64 = U64

  /** One node of the tree: a per-node flag of unknown meaning and a value. */
  datatype Property = Property(anyFlag: bool, value: PropertyValue)

  datatype PropertyValue =
    | None
    | Bool(b: bool)
    | Double(d: F64)
    | String(s: Str)
    | List(items: seq<Property>)
    | Dictionary(entries: seq<(Str, Property)>)
    | Integer(i: I64)
  {
    function AsBool(): (r: Option<bool>)
      ensures r.Some? <==> Bool?
      ensures r.Some? ==> this == Bool(r.value)
    {
      if Bool? then Some(b) else Option.None
    }

    function AsDouble(): (r: Option<F64>)
      ensures r.Some? <==> Double?
      ensures r.Some? ==> this == Double(r.value)
    {
      if Double? then Some(d) else Option.None
    }

    function AsString(): (r: Option<Str>)
      ensures r.Some? <==> String?
      ensures r.Some? ==> this == String(r.value)
    {
      if String? then Some(s) else Option.None
    }

    function AsList(): (r: Option<seq<Property>>)
      ensures r.Some? <==> List?
      ensures r.Some? ==> this == List(r.value)
    {
      if List? then Some(items) else Option.None
    }

    function AsDictionary(): (r: Option<seq<(Str, Property)>>)
      ensures r.Some? <==> Dictionary?
      ensures r.Some? ==> this == Dictionary(r.value)
    {
      if Dictionary? then Some(entries) else Option.None
    }

    function AsInteger(): (r: Option<I64>)
      ensures r.Some? <==> Integer?
      ensures r.Some? ==> this == Integer(r.value)
    {
      if Integer? then Some(i) else Option.None
    }
  }

  /** A whole file: the version header and the root node. */
  datatype Settings = Settings(version: FactorioVersion, properties: Property)

  datatype DecodeError =
    | Truncated                   // the input ended inside a field
    | InvalidHeaderByte(found: Byte)
    | UnknownTypeTag(tag: Byte)
    | InvalidUtf8
    | UnimplementedVariant        // a List payload

  datatype Decoded<+T> = Decoded(value: T, rest: seq<Byte>)

  type Parse<T> = Result<Decoded<T>, DecodeError>

  // ---------------------------------------------------------------------
  // Well-formedness

  /** The tree holds no List node; the List payload codec is not implemented. */
  predicate ListFree(p: Property)
    decreases p
  {
    match p.value
    case List(_) => false
    case Dictionary(es) => forall i | 0 <= i < |es| :: ListFree(es[i].1)
    case _ => true
  }

  /**
   * Every dictionary has unique keys (as any `IndexMap` has) and every string
   * and dictionary is short enough for its length to fit in the u32 that the
   * encoder writes.
   */
  predicate WithinLimits(p: Property)
    decreases p
  {
    match p.value
    case String(s) => |s| < 0x1_0000_0000
    case List(items) => forall i | 0 <= i < |items| :: WithinLimits(items[i])
    case Dictionary(es) =>
      && |es| < 0x1_0000_0000
      && OrderedMap.UniqueKeys(es)
      && forall i | 0 <= i < |es| :: |es[i].0| < 0x1_0000_0000 && WithinLimits(es[i].1)
    case _ => true
  }

  /** The trees the format carries faithfully. */
  predicate Encodable(p: Property) {
    ListFree(p) && WithinLimits(p)
  }

  // ---------------------------------------------------------------------
  // Primitive reads: each fails with Truncated when the input is too short

  function ReadU8(b: seq<Byte>): (r: Parse<Byte>)
    ensures r.Ok? <==> |b| >= 1
    ensures r.Ok? ==> r.value == Decoded(b[0], b[1..])
  {
    if |b| < 1 then Err(Truncated) else Ok(Decoded(b[0], b[1..]))
  }

  /** `read_exact` of n bytes. */
  function ReadExact(b: seq<Byte>, n: nat): (r: Parse<seq<Byte>>)
    ensures r.Ok? <==> |b| >= n
    ensures r.Ok? ==> r.value == Decoded(b[..n], b[n..])
  {
    if |b| < n then Err(Truncated) else Ok(Decoded(b[..n], b[n..]))
  }

  function ReadU32(b: seq<Byte>): (r: Parse<U32>)
    ensures r.Ok? <==> |b| >= 4
    ensures r.Ok? ==> r.value.rest == b[4..]
    ensures r.Ok? ==> r.value.value == FromLittleEndian(b[..4])
  {
    var bytes :- ReadExact(b, 4);
    Pow256Widths();
    Ok(Decoded(FromLittleEndian(bytes.value), bytes.rest))
  }

  function ReadU64(b: seq<Byte>): (r: Parse<U64>)
    ensures r.Ok? <==> |b| >= 8
    ensures r.Ok? ==> r.value.rest == b[8..]
  {
    var bytes :- ReadExact(b, 8);
    Pow256Widths();
    Ok(Decoded(FromLittleEndian(bytes.value), bytes.rest))
  }

  // ---------------------------------------------------------------------
  // Booleans

  /** The loose rule: only the byte 1 is true. */
  function LooseBool(input: Byte): bool {
    input == 1
  }

  /** The strict encoding of a boolean, which the loose rule reads back. */
  function LooseBoolByte(input: bool): (r: Byte)
    ensures r == 0 || r == 1
    ensures LooseBool(r) == input
  {
    if input then 1 else 0
  }

  /** One strict byte, which the loose rule reads back as `b`. */
  function EncodeBool(b: bool): (r: seq<Byte>)
    ensures |r| == 1 && (r[0] == 0 || r[0] == 1) && LooseBool(r[0]) == b
  {
    [LooseBoolByte(b)]
  }

  function DecodeBool(b: seq<Byte>): (r: Parse<bool>)
    ensures r.Ok? ==> |b| >= 1 && r.value == Decoded(b[0] == 1, b[1..])
    ensures r.Err? ==> |b| == 0 && r.error == Truncated
  {
    var byte :- ReadU8(b);
    Ok(Decoded(LooseBool(byte.value), byte.rest))
  }

  // ---------------------------------------------------------------------
  // Numbers

  /** The bit pattern as 8 little-endian bytes. */
  function EncodeDouble(d: F64): (r: seq<Byte>)
    ensures |r| == 8 && FromLittleEndian(r) == d
  {
    U64Bytes(d)
  }

  function DecodeDouble(b: seq<Byte>): (r: Parse<F64>)
    ensures r.Ok? <==> |b| >= 8
    ensures r.Ok? ==> r.value.rest == b[8..]
  {
    ReadU64(b)
  }

  /** The two's-complement pattern as 8 little-endian bytes. */
  function EncodeInteger(i: I64): (r: seq<Byte>)
    ensures |r| == 8 && I64FromBits(FromLittleEndian(r)) == i
  {
    U64Bytes(I64Bits(i))
  }

  function DecodeInteger(b: seq<Byte>): (r: Parse<I64>)
    ensures r.Ok? <==> |b| >= 8
    ensures r.Ok? ==> r.value.rest == b[8..]
  {
    var bits :- ReadU64(b);
    Ok(Decoded(I64FromBits(bits.value), bits.rest))
  }

  // ---------------------------------------------------------------------
  // The variable-length u32: one byte below 0xFF, else 0xFF and four bytes

  function WriteOptimizedU32(value: U32): (bs: seq<Byte>)
    ensures |bs| == if value < 0xFF then 1 else 5
    ensures value < 0xFF ==> bs == [value]
    ensures value >= 0xFF ==> bs[0] == 0xFF && FromLittleEndian(bs[1..]) == value
  {
    if value < 0xFF then [value] else [0xFF] + U32Bytes(value)
  }

  function ReadOptimizedU32(b: seq<Byte>): (r: Parse<U32>)
    ensures r.Ok? ==> |r.value.rest| < |b|
    ensures r.Ok? <==> |b| >= 1 && (b[0] == 0xFF ==> |b| >= 5)
    ensures r.Ok? && b[0] != 0xFF ==> r.value == Decoded(b[0], b[1..])
    ensures r.Ok? && b[0] == 0xFF ==> r.value == Decoded(FromLittleEndian(b[1..5]), b[5..])
  {
    var first :- ReadU8(b);
    if first.value == 0xFF then
      assert |b| >= 5 ==> first.rest[..4] == b[1..5] && first.rest[4..] == b[5..];
      ReadU32(first.rest)
    else Ok(Decoded(first.value, first.rest))
  }

  // ---------------------------------------------------------------------
  // Strings: an is-empty byte, then (unless it reads as true) a length and the bytes

  /**
   * The encoder always writes the not-empty sentinel 0 and a length, even
   * for the empty string. `len() as u32` keeps the low 32 bits of the length.
   */
  function EncodeString(s: Str): seq<Byte> {
    [0] + WriteOptimizedU32(|s| % 0x1_0000_0000) + s
  }

  function DecodeString(b: seq<Byte>): (r: Parse<Str>)
    ensures r.Ok? ==> |r.value.rest| < |b| && |r.value.value| < 0x1_0000_0000
  {
    var empty :- ReadU8(b);
    if !LooseBool(empty.value) then
      var length :- ReadOptimizedU32(empty.rest);
      var bytes :- ReadExact(length.rest, length.value);
      if IsWellFormed(bytes.value) then Ok(Decoded(bytes.value, bytes.rest))
      else Err(InvalidUtf8)
    else
      Ok(Decoded([], empty.rest))
  }

  // ---------------------------------------------------------------------
  // Nodes and dictionaries

  function Tag(v: PropertyValue): Byte {
    match v
    case None => TYPE_NONE
    case Bool(_) => TYPE_BOOL
    case Double(_) => TYPE_DOUBLE
    case String(_) => TYPE_STRING
    case List(_) => TYPE_LIST
    case Dictionary(_) => TYPE_DICTIONARY
    case Integer(_) => TYPE_INTEGER
  }

  /** A node: its tag byte, its flag as a strict boolean byte, then its payload. */
  function EncodeProperty(p: Property): seq<Byte>
    requires ListFree(p)
    decreases p
  {
    [Tag(p.value), LooseBoolByte(p.anyFlag)] + EncodeValue(p.value)
  }

  /** The payload of a node, which its tag announces. */
  function EncodeValue(v: PropertyValue): seq<Byte>
    requires ListFree(Property(false, v))
    decreases v
  {
    match v
    case None => []
    case Bool(b) => EncodeBool(b)
    case Double(d) => EncodeDouble(d)
    case String(s) => EncodeString(s)
    case List(_) => assert false; []
    case Dictionary(es) => EncodeDictionary(es)
    case Integer(i) => EncodeInteger(i)
  }

  /** A dictionary: its entry count as u32 (the low 32 bits of `len()`), then the pairs in order. */
  function EncodeDictionary(es: seq<(Str, Property)>): seq<Byte>
    requires forall i | 0 <= i < |es| :: ListFree(es[i].1)
    decreases Dictionary(es), |es| + 1
  {
    U32Bytes(|es| % 0x1_0000_0000) + EncodeEntries(es, 0)
  }

  /** The key/property pairs es[from..], each key as a string followed by its node. */
  function EncodeEntries(es: seq<(Str, Property)>, from: nat): seq<Byte>
    requires from <= |es|
    requires forall i | from <= i < |es| :: ListFree(es[i].1)
    decreases Dictionary(es), |es| - from
  {
    if from == |es| then []
    else EncodeString(es[from].0) + EncodeProperty(es[from].1) + EncodeEntries(es, from + 1)
  }

  function DecodeProperty(b: seq<Byte>): (r: Parse<Property>)
    ensures r.Ok? ==> |r.value.rest| < |b|
    decreases |b|, 2
  {
    var header :- ReadExact(b, 2);
    var value :- DecodeValue(header.value[0], header.rest);
    Ok(Decoded(Property(LooseBool(header.value[1]), value.value), value.rest))
  }

  /**
   * The payload selected by the tag byte. Tags above 6 are rejected, and so
   * is tag 4, whose List payload the source leaves unimplemented.
   */
  function DecodeValue(vtype: Byte, input: seq<Byte>): (r: Parse<PropertyValue>)
    ensures r.Ok? ==> |r.value.rest| <= |input| && Tag(r.value.value) == vtype
    ensures vtype > TYPE_INTEGER ==> r == Err(UnknownTypeTag(vtype))
    ensures vtype == TYPE_LIST ==> r == Err(UnimplementedVariant)
    decreases |input|, 1
  {
    if vtype == TYPE_NONE then
      Ok(Decoded(PropertyValue.None, input))
    else if vtype == TYPE_BOOL then
      var d :- DecodeBool(input);
      Ok(Decoded(Bool(d.value), d.rest))
    else if vtype == TYPE_DOUBLE then
      var d :- DecodeDouble(input);
      Ok(Decoded(Double(d.value), d.rest))
    else if vtype == TYPE_STRING then
      var d :- DecodeString(input);
      Ok(Decoded(String(d.value), d.rest))
    else if vtype == TYPE_LIST then
      Err(UnimplementedVariant)
    else if vtype == TYPE_DICTIONARY then
      var d :- DecodeDictionary(input);
      Ok(Decoded(Dictionary(d.value), d.rest))
    else if vtype == TYPE_INTEGER then
      var d :- DecodeInteger(input);
      Ok(Decoded(Integer(d.value), d.rest))
    else
      Err(UnknownTypeTag(vtype))
  }

  /** A u32 count, then that many pairs, inserted into an initially empty map. */
  function DecodeDictionary(b: seq<Byte>): (r: Parse<seq<(Str, Property)>>)
    ensures r.Ok? ==> |r.value.rest| < |b|
    decreases |b|, 0
  {
    var count :- ReadU32(b);
    DecodeEntries(count.rest, count.value, [])
  }

  /** The loop body of the dictionary decoder, run n more times on the map built so far. */
  function DecodeEntries(b: seq<Byte>, n: nat, acc: seq<(Str, Property)>): (r: Parse<seq<(Str, Property)>>)
    ensures r.Ok? ==> |r.value.rest| <= |b|
    decreases |b|, 0
  {
    if n == 0 then Ok(Decoded(acc, b))
    else
      var name :- DecodeString(b);
      var value :- DecodeProperty(name.rest);
      DecodeEntries(value.rest, n - 1, OrderedMap.Insert(acc, name.value, value.value))
  }

  // ---------------------------------------------------------------------
  // The file: version header, reserved byte 0, root node

  function EncodeVersion(v: FactorioVersion): seq<Byte> {
    U16Bytes(v.major) + U16Bytes(v.minor) + U16Bytes(v.patch) + U16Bytes(v.build)
  }

  /** `read_u16_into` of four little-endian u16 fields. */
  function DecodeVersion(b: seq<Byte>): (r: Parse<FactorioVersion>)
    ensures r.Ok? <==> |b| >= 8
    ensures r.Ok? ==> r.value.rest == b[8..]
  {
    var words :- ReadExact(b, 8);
    var w := words.value;
    Pow256Widths();
    Ok(Decoded(
      FactorioVersion(FromLittleEndian(w[0..2]), FromLittleEndian(w[2..4]),
                      FromLittleEndian(w[4..6]), FromLittleEndian(w[6..8])),
      words.rest))
  }

  function EncodeSettings(s: Settings): seq<Byte>
    requires ListFree(s.properties)
  {
    EncodeVersion(s.version) + [0] + EncodeProperty(s.properties)
  }

  /** Decoding stops after the root node; whatever follows is left unread. */
  function DecodeSettings(b: seq<Byte>): Parse<Settings> {
    var version :- DecodeVersion(b);
    var reserved :- ReadU8(version.rest);
    if reserved.value != 0 then Err(InvalidHeaderByte(reserved.value))
    else
      var root :- DecodeProperty(reserved.rest);
      Ok(Decoded(Settings(version.value, root.value), root.rest))
  }
}
