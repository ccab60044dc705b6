/**
 * The small settings file of the codec's `simple_encoded` unit test: one
 * string setting "my-string-setting" = "deadbeef" in the startup section,
 * version 1.1.82.4. The bytes are the test's, grouped by the node they
 * belong to.
 */
module Samples {
  import opened Wrappers
  import opened Bytes
  import opened Utf8
  import opened Types
  import opened Simple
  import opened Conversion
  import Codec
  import CodecProperties
  import OrderedMap

  const MY_STRING_SETTING: Str := FromAscii("my-string-setting")
  const DEADBEEF: Str := FromAscii("deadbeef")

  /** The record the test file holds. */
  const SAMPLE: ModSettings := ModSettings(
    FactorioVersion(1, 1, 82, 4),
    [(MY_STRING_SETTING, SettingValue.String(DEADBEEF))],
    [],
    [])

  /*
   * The test's file, byte for byte, grouped by node. Tags, flags, counts and
   * lengths are written out; each name and the string value appear as the
   * ASCII bytes of that name.
   */

  /** The value node: string tag, flag 0, non-empty, 8 bytes. */
  const LEAF_BYTES: seq<Byte> := [0x03, 0x00] + [0x00, 0x08] + DEADBEEF

  /** The setting node: dictionary tag, flag 0, one entry "value". */
  const SETTING_BYTES: seq<Byte> := [0x05, 0x00, 0x01, 0x00, 0x00, 0x00] + [0x00, 0x05] + VALUE_KEY + LEAF_BYTES

  /** The startup section: dictionary tag, flag 0, one entry "my-string-setting". */
  const STARTUP_BYTES: seq<Byte> := [0x05, 0x00, 0x01, 0x00, 0x00, 0x00] + [0x00, 0x11] + MY_STRING_SETTING + SETTING_BYTES

  /** An empty section: dictionary tag, flag 0, no entries. */
  const EMPTY_BYTES: seq<Byte> := [0x05, 0x00, 0x00, 0x00, 0x00, 0x00]

  /** The root: dictionary tag, flag 0, three entries. */
  const ROOT_BYTES: seq<Byte> :=
    [0x05, 0x00, 0x03, 0x00, 0x00, 0x00]
    + [0x00, 0x07] + STARTUP + STARTUP_BYTES
    + [0x00, 0x0E] + RUNTIME_GLOBAL + EMPTY_BYTES
    + [0x00, 0x10] + RUNTIME_PER_USER + EMPTY_BYTES

  /** The file: version 1.1.82.4, the reserved byte, the root. */
  const SAMPLE_FILE: seq<Byte> := [0x01, 0x00, 0x01, 0x00, 0x52, 0x00, 0x04, 0x00] + [0x00] + ROOT_BYTES

  lemma NameLengths()
    ensures |STARTUP| == 7 && |MY_STRING_SETTING| == 0x11 && |VALUE_KEY| == 5 && |DEADBEEF| == 8
    ensures |RUNTIME_GLOBAL| == 0x0E && |RUNTIME_PER_USER| == 0x10
  {
  }

  /** A string of n < 255 bytes: non-empty flag, one length byte, the bytes. */
  lemma ShortString(s: Str, n: Byte)
    requires |s| == n < 0xFF
    ensures Codec.EncodeString(s) == [0, n] + s
  {
  }

  lemma StringNode(s: Str, n: Byte)
    requires |s| == n < 0xFF
    ensures Codec.EncodeProperty(Node(Codec.String(s))) == [Codec.TYPE_STRING, 0] + [0, n] + s
  {
    ShortString(s, n);
  }

  lemma EmptyNode()
    ensures Codec.EncodeProperty(Node(Codec.Dictionary([]))) == [Codec.TYPE_DICTIONARY, 0, 0, 0, 0, 0]
  {
    assert U32Bytes(0) == [0, 0, 0, 0];
  }

  /** A one-entry dictionary whose key has n < 255 bytes. */
  lemma SingletonNode(k: Str, n: Byte, p: Codec.Property)
    requires |k| == n < 0xFF && Codec.ListFree(p)
    ensures Codec.ListFree(Node(Codec.Dictionary([(k, p)])))
    ensures Codec.EncodeProperty(Node(Codec.Dictionary([(k, p)]))) ==
      [Codec.TYPE_DICTIONARY, 0, 1, 0, 0, 0] + [0, n] + k + Codec.EncodeProperty(p)
  {
    var es := [(k, p)];
    var e1 := Codec.EncodeProperty(p);
    SingletonEntries(k, n, p);
    DictionaryNode(es);
    assert |es| % 0x1_0000_0000 == 1;
    assert U32Bytes(1) == [1, 0, 0, 0];
    SingletonLayout(k, n, e1);
  }

  /** The bytes of a one-entry dictionary node, regrouped. */
  lemma SingletonLayout(k: seq<Byte>, n: Byte, e1: seq<Byte>)
    ensures [Codec.TYPE_DICTIONARY, 0] + ([1, 0, 0, 0] + ([0, n] + k + e1)) ==
      [Codec.TYPE_DICTIONARY, 0, 1, 0, 0, 0] + [0, n] + k + e1
  {
    var tail := [0, n] + k + e1;
    assert [Codec.TYPE_DICTIONARY, 0] + ([1, 0, 0, 0] + tail) == [Codec.TYPE_DICTIONARY, 0, 1, 0, 0, 0] + tail;
  }

  /** A dictionary node: tag, flag 0, the entry count as u32, the entries. */
  lemma DictionaryNode(es: seq<(Str, Codec.Property)>)
    requires forall i | 0 <= i < |es| :: Codec.ListFree(es[i].1)
    ensures Codec.ListFree(Node(Codec.Dictionary(es)))
    ensures Codec.EncodeProperty(Node(Codec.Dictionary(es))) ==
      [Codec.TYPE_DICTIONARY, 0] + (U32Bytes(|es| % 0x1_0000_0000) + Codec.EncodeEntries(es, 0))
  {
    assert Codec.EncodeValue(Codec.Dictionary(es)) == Codec.EncodeDictionary(es);
  }

  /** One entry whose key has n < 255 bytes. */
  lemma SingletonEntries(k: Str, n: Byte, p: Codec.Property)
    requires |k| == n < 0xFF && Codec.ListFree(p)
    ensures Codec.EncodeEntries([(k, p)], 0) == [0, n] + k + Codec.EncodeProperty(p)
  {
    ShortString(k, n);
    assert Codec.EncodeEntries([(k, p)], 1) == [];
  }

  /** Three entries whose keys have n1, n2, n3 < 255 bytes. */
  lemma TripleEntries(k1: Str, n1: Byte, p1: Codec.Property, k2: Str, n2: Byte, p2: Codec.Property, k3: Str, n3: Byte, p3: Codec.Property)
    requires |k1| == n1 < 0xFF && |k2| == n2 < 0xFF && |k3| == n3 < 0xFF
    requires Codec.ListFree(p1) && Codec.ListFree(p2) && Codec.ListFree(p3)
    ensures var es := [(k1, p1), (k2, p2), (k3, p3)];
      && (forall i | 0 <= i < |es| :: Codec.ListFree(es[i].1))
      && Codec.EncodeEntries(es, 0) ==
           [0, n1] + k1 + Codec.EncodeProperty(p1)
           + ([0, n2] + k2 + Codec.EncodeProperty(p2)
           + ([0, n3] + k3 + Codec.EncodeProperty(p3)))
  {
    var es := [(k1, p1), (k2, p2), (k3, p3)];
    forall i | 0 <= i < |es|
      ensures Codec.ListFree(es[i].1)
    {
      if i == 0 {
        assert es[i].1 == p1;
      } else if i == 1 {
        assert es[i].1 == p2;
      } else {
        assert es[i].1 == p3;
      }
    }
    ShortString(k1, n1);
    ShortString(k2, n2);
    ShortString(k3, n3);
    assert Codec.EncodeEntries(es, 3) == [];
    assert Codec.EncodeEntries(es, 2) == Codec.EncodeString(k3) + Codec.EncodeProperty(p3);
    assert Codec.EncodeEntries(es, 1) == Codec.EncodeString(k2) + Codec.EncodeProperty(p2) + Codec.EncodeEntries(es, 2);
    assert Codec.EncodeEntries(es, 0) == Codec.EncodeString(k1) + Codec.EncodeProperty(p1) + Codec.EncodeEntries(es, 1);
  }

  /** A three-entry dictionary whose keys have n1, n2, n3 < 255 bytes. */
  lemma TripleNode(k1: Str, n1: Byte, p1: Codec.Property, k2: Str, n2: Byte, p2: Codec.Property, k3: Str, n3: Byte, p3: Codec.Property)
    requires |k1| == n1 < 0xFF && |k2| == n2 < 0xFF && |k3| == n3 < 0xFF
    requires Codec.ListFree(p1) && Codec.ListFree(p2) && Codec.ListFree(p3)
    ensures Codec.ListFree(Node(Codec.Dictionary([(k1, p1), (k2, p2), (k3, p3)])))
    ensures Codec.EncodeProperty(Node(Codec.Dictionary([(k1, p1), (k2, p2), (k3, p3)]))) ==
      [Codec.TYPE_DICTIONARY, 0, 3, 0, 0, 0]
      + [0, n1] + k1 + Codec.EncodeProperty(p1)
      + [0, n2] + k2 + Codec.EncodeProperty(p2)
      + [0, n3] + k3 + Codec.EncodeProperty(p3)
  {
    var es := [(k1, p1), (k2, p2), (k3, p3)];
    TripleEntries(k1, n1, p1, k2, n2, p2, k3, n3, p3);
    var e1, e2, e3 := Codec.EncodeProperty(p1), Codec.EncodeProperty(p2), Codec.EncodeProperty(p3);
    DictionaryNode(es);
    assert U32Bytes(3) == [3, 0, 0, 0];
    assert [Codec.TYPE_DICTIONARY, 0] + [3, 0, 0, 0] == [Codec.TYPE_DICTIONARY, 0, 3, 0, 0, 0];
    Regroup([Codec.TYPE_DICTIONARY, 0], [3, 0, 0, 0], [0, n1], k1, e1, [0, n2], k2, e2, [0, n3], k3, e3);
  }

  /** Re-bracketing the concatenations of a three-entry dictionary's bytes. */
  lemma Regroup(a: seq<Byte>, b: seq<Byte>, c1: seq<Byte>, d1: seq<Byte>, e1: seq<Byte>, c2: seq<Byte>, d2: seq<Byte>, e2: seq<Byte>,
                c3: seq<Byte>, d3: seq<Byte>, e3: seq<Byte>)
    ensures a + (b + (c1 + d1 + e1 + (c2 + d2 + e2 + (c3 + d3 + e3)))) ==
      (a + b) + c1 + d1 + e1 + c2 + d2 + e2 + c3 + d3 + e3
  {
  }

  /** The nodes `from_simple` builds for the sample, from the leaf up. */
  lemma SampleTree()
    ensures SectionProperty(SAMPLE.startup) ==
      Node(Codec.Dictionary([(MY_STRING_SETTING, Node(Codec.Dictionary([(VALUE_KEY, Node(Codec.String(DEADBEEF)))])))]))
    ensures SectionProperty([]) == Node(Codec.Dictionary([]))
  {
    SectionEntriesInOrder(SAMPLE.startup);
    assert SectionEntries([]) == [];
  }

  /** `from_simple` of the sample, encoded, is the test's file byte for byte. */
  lemma SampleFileEncodes()
    ensures Codec.ListFree(SimpleToSettings(SAMPLE).properties)
    ensures Codec.EncodeSettings(SimpleToSettings(SAMPLE)) == SAMPLE_FILE
  {
    NameLengths();
    SampleTree();
    SimpleToSettingsShape(SAMPLE);
    var leaf := Node(Codec.String(DEADBEEF));
    var setting := Node(Codec.Dictionary([(VALUE_KEY, leaf)]));
    var startup := Node(Codec.Dictionary([(MY_STRING_SETTING, setting)]));
    var empty := Node(Codec.Dictionary([]));
    StringNode(DEADBEEF, 0x08);
    assert Codec.EncodeProperty(leaf) == LEAF_BYTES;
    SingletonNode(VALUE_KEY, 0x05, leaf);
    assert Codec.EncodeProperty(setting) == SETTING_BYTES;
    SingletonNode(MY_STRING_SETTING, 0x11, setting);
    assert Codec.EncodeProperty(startup) == STARTUP_BYTES;
    EmptyNode();
    assert Codec.EncodeProperty(empty) == EMPTY_BYTES;
    TripleNode(STARTUP, 0x07, startup, RUNTIME_GLOBAL, 0x0E, empty, RUNTIME_PER_USER, 0x10, empty);
    assert Codec.EncodeProperty(SimpleToSettings(SAMPLE).properties) == ROOT_BYTES;
    VersionBytes();
  }

  /** A u16 below 256: the value, then a zero byte. */
  lemma SmallU16(v: U16)
    requires v < 0x100
    ensures U16Bytes(v) == [v, 0]
  {
    Pow256Widths();
    assert LittleEndian(0, 0) == [];
    assert LittleEndian(v / 256, 1) == [0];
    assert LittleEndian(v, 2) == [v % 256] + LittleEndian(v / 256, 1);
  }

  lemma VersionBytes()
    ensures Codec.EncodeVersion(FactorioVersion(1, 1, 82, 4)) == [0x01, 0x00, 0x01, 0x00, 0x52, 0x00, 0x04, 0x00]
  {
    SmallU16(1);
    SmallU16(0x52);
    SmallU16(4);
    assert Codec.EncodeVersion(FactorioVersion(1, 1, 82, 4)) == [0x01, 0x00] + [0x01, 0x00] + [0x52, 0x00] + [0x04, 0x00];
  }

  /**
   * What the test checks of the decoded file: the version, the cleared root
   * flag, and startup / my-string-setting / value being the string
   * "deadbeef"; here as the whole projected record, with nothing left over.
   */
  lemma SampleFileDecodes()
    ensures var d := Codec.DecodeSettings(SAMPLE_FILE);
      && d.Ok? && d.value.rest == []
      && d.value.value.version == FactorioVersion(1, 1, 82, 4)
      && !d.value.value.properties.anyFlag
      && ToSimple(d.value.value, ColorFromAsWritten) == Ok(SAMPLE)
  {
    SampleFileEncodes();
    SampleWellFormed();
    FileRoundTrip(SAMPLE, ColorFromAsWritten);
  }

  /** The sample holds one string setting under a short name. */
  lemma SampleWellFormed()
    ensures WellFormed(SAMPLE) && WithinLimits(SAMPLE)
    ensures RecordColoursReadBack(SAMPLE, ColorFromAsWritten)
  {
    NameLengths();
    assert SectionWellFormed(SAMPLE.startup);
    assert SectionWithinLimits(SAMPLE.startup);
  }
}
