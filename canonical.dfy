/**
 * Byte-identical round trips. The decoder is more permissive than the
 * encoder: it reads any flag or boolean byte (only 1 is true), the is-empty
 * sentinel 1, a length written with 0xFF although it fits in one byte, and
 * a dictionary key given twice. The encoder writes none of these. Input
 * free of them is called canonical here, and decoding followed by encoding
 * gives back exactly the input precisely when the input is canonical.
 */
module Canonical {
  import opened Wrappers
  import opened Bytes
  import opened Utf8
  import opened Codec
  import CodecProperties
  import OrderedMap

  // ---------------------------------------------------------------------
  // Canonical input, following the decoder field by field

  /** A strict boolean byte: 0 or 1. */
  predicate CanonicalBool(b: seq<Byte>) {
    |b| >= 1 && b[0] <= 1
  }

  /** A length written with 0xFF only when it does not fit in one byte. */
  predicate CanonicalLength(b: seq<Byte>) {
    |b| >= 1 && (b[0] == 0xFF ==> |b| >= 5 && FromLittleEndian(b[1..5]) >= 0xFF)
  }

  /** The not-empty sentinel 0, then a canonical length. */
  predicate CanonicalString(b: seq<Byte>) {
    |b| >= 1 && b[0] == 0 && CanonicalLength(b[1..])
  }

  /** A node: a strict flag byte, then a canonical payload. */
  predicate CanonicalProperty(b: seq<Byte>)
    decreases |b|, 2
  {
    |b| >= 2 && b[1] <= 1 && CanonicalValue(b[0], b[2..])
  }

  /** The payload the tag announces; numbers have no redundancy, so any eight bytes are canonical. */
  predicate CanonicalValue(vtype: Byte, b: seq<Byte>)
    decreases |b|, 1
  {
    if vtype == TYPE_BOOL then CanonicalBool(b)
    else if vtype == TYPE_STRING then CanonicalString(b)
    else if vtype == TYPE_DICTIONARY then |b| >= 4 && CanonicalEntries(b[4..], FromLittleEndian(b[..4]), [])
    else true
  }

  /**
   * The n pairs still to be read onto the map acc: each key canonical and
   * not yet in the map, each node canonical.
   */
  predicate CanonicalEntries(b: seq<Byte>, n: nat, acc: seq<(Str, Property)>)
    decreases |b|, 0
  {
    if n == 0 then true
    else
      && CanonicalString(b)
      && DecodeString(b).Ok?
      && var name := DecodeString(b).value;
      && name.value !in OrderedMap.Keys(acc)
      && CanonicalProperty(name.rest)
      && DecodeProperty(name.rest).Ok?
      && var node := DecodeProperty(name.rest).value;
      CanonicalEntries(node.rest, n - 1, OrderedMap.Insert(acc, name.value, node.value))
  }

  /** A whole file: the header, the reserved byte, then a canonical root. */
  predicate CanonicalSettings(b: seq<Byte>) {
    |b| >= 9 && CanonicalProperty(b[9..])
  }

  // ---------------------------------------------------------------------
  // Canonical input is re-encoded byte for byte

  lemma BoolReencode(b: seq<Byte>, x: bool, rest: seq<Byte>)
    requires DecodeBool(b) == Ok(Decoded(x, rest)) && CanonicalBool(b)
    ensures EncodeBool(x) + rest == b
  {
    assert b == [b[0]] + b[1..];
  }

  lemma U64Reencode(b: seq<Byte>, u: U64, rest: seq<Byte>)
    requires ReadU64(b) == Ok(Decoded(u, rest))
    ensures U64Bytes(u) + rest == b
  {
    U64BytesOf(b[..8]);
    assert b == b[..8] + b[8..];
  }

  /** The shortest length prefix is written back byte for byte. */
  lemma LengthReencode(b: seq<Byte>, n: U32, rest: seq<Byte>)
    requires ReadOptimizedU32(b) == Ok(Decoded(n, rest)) && CanonicalLength(b)
    ensures WriteOptimizedU32(n) + rest == b
  {
    if b[0] < 0xFF {
      assert b == [b[0]] + b[1..];
    } else {
      var w := b[1..5];
      U32BytesOf(w);
      assert b[1..][..4] == w && b[1..][4..] == b[5..];
      assert WriteOptimizedU32(n) == [0xFF] + w;
      assert b == [0xFF] + w + b[5..];
    }
  }

  /** A string read after the sentinel 0: its length, then its bytes, then what follows. */
  lemma StringParts(b: seq<Byte>, s: Str, rest: seq<Byte>)
    requires DecodeString(b) == Ok(Decoded(s, rest)) && |b| >= 1 && b[0] == 0
    ensures ReadOptimizedU32(b[1..]).Ok?
    ensures var length := ReadOptimizedU32(b[1..]).value;
      length.value == |s| && s + rest == length.rest
  {
    var length := ReadOptimizedU32(b[1..]).value;
    assert length.rest[..length.value] + length.rest[length.value..] == length.rest;
  }

  lemma StringReencode(b: seq<Byte>, s: Str, rest: seq<Byte>)
    requires DecodeString(b) == Ok(Decoded(s, rest)) && CanonicalString(b)
    ensures EncodeString(s) + rest == b
  {
    StringParts(b, s, rest);
    var length := ReadOptimizedU32(b[1..]).value;
    LengthReencode(b[1..], length.value, length.rest);
    var w := WriteOptimizedU32(|s|);
    U32CastOfSmall(|s|);
    assert EncodeString(s) == [0] + w + s;
    Regroup([0], w, s, rest);
    Concat3(w, s, rest);
    assert EncodeString(s) + rest == [0] + (w + (s + rest));
    assert b == [0] + b[1..];
  }

  /** Decoding canonical bytes and encoding the node gives back the bytes the decoder consumed. */
  lemma {:induction false} PropertyReencode(b: seq<Byte>, p: Property, rest: seq<Byte>)
    requires DecodeProperty(b) == Ok(Decoded(p, rest)) && CanonicalProperty(b)
    ensures ListFree(p) && EncodeProperty(p) + rest == b
    decreases |b|, 3
  {
    var v := DecodeValue(b[0], b[2..]).value;
    assert v.rest == rest && p == Property(b[1] == 1, v.value);
    ValueReencode(b[0], b[2..], v.value, rest);
    assert LooseBoolByte(p.anyFlag) == b[1];
    assert EncodeProperty(p) == [b[0], b[1]] + EncodeValue(v.value);
    Concat3([b[0], b[1]], EncodeValue(v.value), rest);
    assert b == [b[0], b[1]] + b[2..];
  }

  lemma {:induction false} ValueReencode(vtype: Byte, b: seq<Byte>, v: PropertyValue, rest: seq<Byte>)
    requires DecodeValue(vtype, b) == Ok(Decoded(v, rest)) && CanonicalValue(vtype, b)
    ensures ListFree(Property(false, v)) && Tag(v) == vtype && EncodeValue(v) + rest == b
    decreases |b|, 2
  {
    if vtype == TYPE_NONE {
      assert b == rest;
    } else if vtype == TYPE_BOOL {
      BoolReencode(b, v.b, rest);
    } else if vtype == TYPE_DOUBLE {
      U64Reencode(b, v.d, rest);
    } else if vtype == TYPE_STRING {
      StringReencode(b, v.s, rest);
    } else if vtype == TYPE_DICTIONARY {
      DictionaryReencode(b, v.entries, rest);
    } else {
      assert vtype == TYPE_INTEGER;
      var u := ReadU64(b).value.value;
      I64BitsRoundTrip(u);
      U64Reencode(b, u, rest);
    }
  }

  lemma {:induction false} DictionaryReencode(b: seq<Byte>, es: seq<(Str, Property)>, rest: seq<Byte>)
    requires DecodeDictionary(b) == Ok(Decoded(es, rest)) && CanonicalValue(TYPE_DICTIONARY, b)
    ensures (forall i | 0 <= i < |es| :: ListFree(es[i].1)) && EncodeDictionary(es) + rest == b
    decreases |b|, 1
  {
    DictionaryEntries(b, es, rest);
    CanonicalDictionary(b);
    EntriesReencode(b[4..], FromLittleEndian(b[..4]), [], 0, es, rest);
    DictionaryBytes(b, es, rest);
  }

  /** A canonical dictionary payload is a count followed by canonical pairs. */
  lemma CanonicalDictionary(b: seq<Byte>)
    requires CanonicalValue(TYPE_DICTIONARY, b)
    ensures |b| >= 4 && CanonicalEntries(b[4..], FromLittleEndian(b[..4]), [])
  {
  }

  /** The count read back as u32 and the pairs after it make up the dictionary's bytes. */
  lemma DictionaryBytes(b: seq<Byte>, es: seq<(Str, Property)>, rest: seq<Byte>)
    requires |b| >= 4 && |es| == FromLittleEndian(b[..4])
    requires forall i | 0 <= i < |es| :: ListFree(es[i].1)
    requires EncodeEntries(es, 0) + rest == b[4..]
    ensures EncodeDictionary(es) + rest == b
  {
    var head := b[..4];
    U32BytesOf(head);
    DictionaryPrefix(es, head);
    Concat3(head, EncodeEntries(es, 0), rest);
    assert head + b[4..] == b;
  }

  /** A dictionary of fewer than 2^32 pairs starts with its count as a u32. */
  lemma DictionaryPrefix(es: seq<(Str, Property)>, head: seq<Byte>)
    requires forall i | 0 <= i < |es| :: ListFree(es[i].1)
    requires |es| < 0x1_0000_0000 && U32Bytes(|es|) == head
    ensures EncodeDictionary(es) == head + EncodeEntries(es, 0)
  {
    U32CastOfSmall(|es|);
  }

  /** A decoded dictionary is its u32 count followed by the loop's pairs. */
  lemma DictionaryEntries(b: seq<Byte>, es: seq<(Str, Property)>, rest: seq<Byte>)
    requires DecodeDictionary(b) == Ok(Decoded(es, rest))
    ensures |b| >= 4 && DecodeEntries(b[4..], FromLittleEndian(b[..4]), []) == Ok(Decoded(es, rest))
  {
  }

  /**
   * The dictionary loop on canonical bytes appends every pair to acc (which
   * holds `from` pairs), and encoding the appended pairs gives back the
   * bytes it consumed.
   */
  lemma {:induction false} EntriesReencode(b: seq<Byte>, n: nat, acc: seq<(Str, Property)>, from: nat, es: seq<(Str, Property)>, rest: seq<Byte>)
    requires |acc| == from
    requires DecodeEntries(b, n, acc) == Ok(Decoded(es, rest)) && CanonicalEntries(b, n, acc)
    ensures |es| == from + n && es[..from] == acc
    ensures forall i | from <= i < |es| :: ListFree(es[i].1)
    ensures EncodeEntries(es, from) + rest == b
    decreases |b|, 0, 1
  {
    if n == 0 {
      EntriesDone(b, acc, es, rest);
      assert es[..from] == acc;
    } else {
      EntryDecoded(b, n, acc, es, rest);
      CanonicalEntry(b, n, acc);
      var name := DecodeString(b).value;
      var node := DecodeProperty(name.rest).value;
      EntriesReencode(node.rest, n - 1, acc + [(name.value, node.value)], from + 1, es, rest);
      StringReencode(b, name.value, name.rest);
      PropertyReencode(name.rest, node.value, node.rest);
      EntriesReencodeCons(b, n, acc, from, es, rest, name.value, name.rest, node.value, node.rest);
    }
  }

  lemma EntriesDone(b: seq<Byte>, acc: seq<(Str, Property)>, es: seq<(Str, Property)>, rest: seq<Byte>)
    requires DecodeEntries(b, 0, acc) == Ok(Decoded(es, rest))
    ensures es == acc && rest == b
  {
  }

  /** One pair (key, node) written back in front of the remaining ones. */
  lemma EntriesReencodeCons(
    b: seq<Byte>, n: nat, acc: seq<(Str, Property)>, from: nat, es: seq<(Str, Property)>, rest: seq<Byte>,
    key: Str, afterKey: seq<Byte>, node: Property, afterNode: seq<Byte>)
    requires n > 0 && |acc| == from
    requires |es| == from + 1 + (n - 1) && es[..from + 1] == acc + [(key, node)]
    requires forall i | from + 1 <= i < |es| :: ListFree(es[i].1)
    requires ListFree(node)
    requires EncodeString(key) + afterKey == b
    requires EncodeProperty(node) + afterNode == afterKey
    requires EncodeEntries(es, from + 1) + rest == afterNode
    ensures |es| == from + n && es[..from] == acc
    ensures forall i | from <= i < |es| :: ListFree(es[i].1)
    ensures EncodeEntries(es, from) + rest == b
  {
    AppendedPair(es, acc, from, key, node);
    EntriesBytes(es, from, rest, b, afterKey, afterNode);
  }

  /** The pairs read so far are acc, then (key, node). */
  lemma AppendedPair(es: seq<(Str, Property)>, acc: seq<(Str, Property)>, from: nat, key: Str, node: Property)
    requires |acc| == from < |es| && es[..from + 1] == acc + [(key, node)]
    ensures es[..from] == acc && es[from] == (key, node)
  {
    assert es[..from] == es[..from + 1][..from];
    assert es[from] == es[..from + 1][from];
  }

  /** Pair `from` encoded in front of the pairs after it gives back the bytes of all of them. */
  lemma EntriesBytes(es: seq<(Str, Property)>, from: nat, rest: seq<Byte>, b: seq<Byte>, afterKey: seq<Byte>, afterNode: seq<Byte>)
    requires from < |es| && ListFree(es[from].1)
    requires forall i | from + 1 <= i < |es| :: ListFree(es[i].1)
    requires EncodeString(es[from].0) + afterKey == b
    requires EncodeProperty(es[from].1) + afterNode == afterKey
    requires EncodeEntries(es, from + 1) + rest == afterNode
    ensures forall i | from <= i < |es| :: ListFree(es[i].1)
    ensures EncodeEntries(es, from) + rest == b
  {
    CodecProperties.EncodeEntriesUnfold(es, from, rest);
  }

  /** A loop turn that succeeds read a key and a node and went on with the map holding them. */
  lemma EntryDecoded(b: seq<Byte>, n: nat, acc: seq<(Str, Property)>, es: seq<(Str, Property)>, rest: seq<Byte>)
    requires n > 0 && DecodeEntries(b, n, acc) == Ok(Decoded(es, rest))
    requires CanonicalEntries(b, n, acc)
    ensures DecodeString(b).Ok?
    ensures var name := DecodeString(b).value;
      && DecodeProperty(name.rest).Ok?
      && var node := DecodeProperty(name.rest).value;
      && name.value !in OrderedMap.Keys(acc)
      && DecodeEntries(node.rest, n - 1, acc + [(name.value, node.value)]) == Ok(Decoded(es, rest))
  {
  }

  /** A canonical loop turn: a fresh canonical key, a canonical node, and canonical pairs after them. */
  lemma CanonicalEntry(b: seq<Byte>, n: nat, acc: seq<(Str, Property)>)
    requires n > 0 && CanonicalEntries(b, n, acc)
    ensures CanonicalString(b) && DecodeString(b).Ok?
    ensures var name := DecodeString(b).value;
      && name.value !in OrderedMap.Keys(acc)
      && CanonicalProperty(name.rest) && DecodeProperty(name.rest).Ok?
      && var node := DecodeProperty(name.rest).value;
      && OrderedMap.Insert(acc, name.value, node.value) == acc + [(name.value, node.value)]
      && CanonicalEntries(node.rest, n - 1, acc + [(name.value, node.value)])
  {
  }

  // ---------------------------------------------------------------------
  // The encoder only writes canonical bytes

  lemma StringCanonical(s: Str, rest: seq<Byte>)
    requires |s| < 0x1_0000_0000
    ensures CanonicalString(EncodeString(s) + rest)
  {
    var b := EncodeString(s) + rest;
    U32CastOfSmall(|s|);
    var w := WriteOptimizedU32(|s|);
    assert b[1..] == w + (s + rest);
    if |s| >= 0xFF {
      assert b[1..][1..5] == U32Bytes(|s|);
    }
  }

  /** Every node the encoder writes, followed by anything, starts with canonical bytes. */
  lemma {:induction false} PropertyCanonical(p: Property, rest: seq<Byte>)
    requires Encodable(p)
    ensures CanonicalProperty(EncodeProperty(p) + rest)
    decreases p
  {
    var b := EncodeProperty(p) + rest;
    assert b[..2] == [Tag(p.value), LooseBoolByte(p.anyFlag)];
    assert b[2..] == EncodeValue(p.value) + rest;
    ValueCanonical(p.value, rest);
  }

  lemma {:induction false} ValueCanonical(v: PropertyValue, rest: seq<Byte>)
    requires Encodable(Property(false, v))
    ensures CanonicalValue(Tag(v), EncodeValue(v) + rest)
    decreases v
  {
    match v
    case String(s) => StringCanonical(s, rest);
    case Dictionary(es) => DictionaryCanonical(es, rest);
    case _ =>
  }

  lemma {:induction false} DictionaryCanonical(es: seq<(Str, Property)>, rest: seq<Byte>)
    requires Encodable(Property(false, Dictionary(es)))
    ensures CanonicalValue(TYPE_DICTIONARY, EncodeDictionary(es) + rest)
    decreases Dictionary(es), |es| + 1
  {
    CodecProperties.EncodableDictionaryParts(es);
    EncodableListFree(es);
    AllEntriesCanonical(es, rest);
    CountThenCanonicalEntries(es, rest);
  }

  /** A dictionary's pairs, distinct keys read onto an empty map, are canonical. */
  lemma AllEntriesCanonical(es: seq<(Str, Property)>, rest: seq<Byte>)
    requires CodecProperties.EncodableEntries(es) && OrderedMap.UniqueKeys(es)
    ensures CanonicalEntries(EncodeEntries(es, 0) + rest, |es|, [])
    decreases Dictionary(es), |es| + 1, 0
  {
    // A variable in place of the literal 0 keeps the solver from unfolding the loop at the call.
    var first: nat := 0;
    CodecProperties.UniqueKeysAreFresh(es, first, []);
    EntriesCanonical(es, first, [], rest);
    assert |es| - first == |es|;
  }

  /** Canonical pairs after the count make a canonical dictionary. */
  lemma CountThenCanonicalEntries(es: seq<(Str, Property)>, rest: seq<Byte>)
    requires |es| < 0x1_0000_0000
    requires forall i | 0 <= i < |es| :: ListFree(es[i].1)
    requires CanonicalEntries(EncodeEntries(es, 0) + rest, |es|, [])
    ensures CanonicalValue(TYPE_DICTIONARY, EncodeDictionary(es) + rest)
  {
    DictionarySplit(es, rest);
  }

  lemma EncodableListFree(es: seq<(Str, Property)>)
    requires CodecProperties.EncodableEntries(es)
    ensures forall i | 0 <= i < |es| :: ListFree(es[i].1)
  {
  }

  /** An encoded dictionary is its count as a u32, then its pairs. */
  lemma DictionarySplit(es: seq<(Str, Property)>, rest: seq<Byte>)
    requires |es| < 0x1_0000_0000
    requires forall i | 0 <= i < |es| :: ListFree(es[i].1)
    ensures var b := EncodeDictionary(es) + rest;
      |b| >= 4 && FromLittleEndian(b[..4]) == |es| && b[4..] == EncodeEntries(es, 0) + rest
  {
    var body := EncodeEntries(es, 0) + rest;
    U32CastOfSmall(|es|);
    var b := EncodeDictionary(es) + rest;
    assert b == U32Bytes(|es|) + body;
    assert b[..4] == U32Bytes(|es|) && b[4..] == body;
  }

  /** The pairs es[from..] as the encoder writes them are canonical for a map holding none of their keys. */
  lemma {:induction false} EntriesCanonical(es: seq<(Str, Property)>, from: nat, acc: seq<(Str, Property)>, rest: seq<Byte>)
    requires from <= |es|
    requires CodecProperties.EncodableEntries(es) && CodecProperties.FreshKeys(es, from, acc)
    ensures CanonicalEntries(EncodeEntries(es, from) + rest, |es| - from, acc)
    decreases Dictionary(es), |es| - from, 1
  {
    if from < |es| {
      var k, v := es[from].0, es[from].1;
      var tail := EncodeEntries(es, from + 1) + rest;
      var afterKey := EncodeProperty(v) + tail;
      CodecProperties.EncodeEntriesUnfold(es, from, rest);
      CodecProperties.StringRoundTrip(k, afterKey);
      StringCanonical(k, afterKey);
      CodecProperties.PropertyRoundTrip(v, tail);
      PropertyCanonical(v, tail);
      EntriesCanonical(es, from + 1, acc + [es[from]], rest);
      assert OrderedMap.Insert(acc, k, v) == acc + [es[from]];
      CanonicalEntriesStep(EncodeString(k) + afterKey, |es| - from, acc, k, afterKey, v, tail);
    }
  }

  /** One canonical loop turn in front of canonical remaining pairs. */
  lemma CanonicalEntriesStep(b: seq<Byte>, n: nat, acc: seq<(Str, Property)>, k: Str, afterKey: seq<Byte>, v: Property, tail: seq<Byte>)
    requires n > 0
    requires CanonicalString(b) && DecodeString(b) == Ok(Decoded(k, afterKey))
    requires k !in OrderedMap.Keys(acc)
    requires CanonicalProperty(afterKey) && DecodeProperty(afterKey) == Ok(Decoded(v, tail))
    requires CanonicalEntries(tail, n - 1, OrderedMap.Insert(acc, k, v))
    ensures CanonicalEntries(b, n, acc)
  {
  }

  // ---------------------------------------------------------------------
  // Both directions together

  /**
   * Whatever the decoder accepts is written back byte for byte exactly when
   * it is canonical: no loose flag or boolean byte, no is-empty sentinel 1,
   * no over-long length and no repeated dictionary key.
   */
  lemma ReencodeIffCanonical(b: seq<Byte>)
    requires DecodeProperty(b).Ok?
    ensures var d := DecodeProperty(b).value;
      Encodable(d.value) && (EncodeProperty(d.value) + d.rest == b <==> CanonicalProperty(b))
  {
    var d := DecodeProperty(b).value;
    CodecProperties.DecodePropertyEncodable(b);
    if CanonicalProperty(b) {
      PropertyReencode(b, d.value, d.rest);
    }
    PropertyCanonical(d.value, d.rest);
  }

  /** The same for a whole file: its header has no redundancy, so only the root node matters. */
  lemma SettingsReencodeIffCanonical(b: seq<Byte>)
    requires DecodeSettings(b).Ok?
    ensures var d := DecodeSettings(b).value;
      Encodable(d.value.properties) && (EncodeSettings(d.value) + d.rest == b <==> CanonicalSettings(b))
  {
    var d := DecodeSettings(b).value;
    CodecProperties.DecodeSettingsHeader(b);
    ReencodeIffCanonical(b[9..]);
    VersionReencode(b);
    assert EncodeSettings(d.value) + d.rest == EncodeVersion(d.value.version) + [0] + (EncodeProperty(d.value.properties) + d.rest);
    assert b == b[..8] + [0] + b[9..];
    if EncodeSettings(d.value) + d.rest == b {
      assert (EncodeVersion(d.value.version) + [0] + (EncodeProperty(d.value.properties) + d.rest))[9..]
          == EncodeProperty(d.value.properties) + d.rest;
    }
  }

  /** The eight header bytes are the version written back. */
  lemma VersionReencode(b: seq<Byte>)
    requires |b| >= 8
    ensures EncodeVersion(DecodeVersion(b).value.value) == b[..8]
  {
    var w := b[..8];
    assert w[0..2] == b[0..2] && w[2..4] == b[2..4] && w[4..6] == b[4..6] && w[6..8] == b[6..8];
    U16BytesOf(b[0..2]);
    U16BytesOf(b[2..4]);
    U16BytesOf(b[4..6]);
    U16BytesOf(b[6..8]);
    assert b[..8] == b[0..2] + b[2..4] + b[4..6] + b[6..8];
  }
}
