/**
 * Building the raw property tree from the flat settings record
 * (`Settings::from_simple` and `convert_simple_index_map`), and the round
 * trip through the projection and through the codec.
 */
module Conversion {
  import opened Wrappers
  import opened Bytes
  import opened Utf8
  import opened Types
  import opened Simple
  import Codec
  import CodecProperties
  import OrderedMap

  /** A node as the builder makes every node: flag cleared. */
  function Node(v: Codec.PropertyValue): (p: Codec.Property)
    ensures !p.anyFlag && p.value == v
  {
    Codec.Property(false, v)
  }

  /**
   * The four inserts building a colour's dictionary. The keys differ, so the
   * channels stay in the order r, g, b, a.
   */
  function ColorEntries(r: Codec.F64, g: Codec.F64, b: Codec.F64, a: Codec.F64): (es: seq<(Str, Codec.Property)>)
    ensures es == [
      (ChannelKey(Red), Node(Codec.Double(r))),
      (ChannelKey(Green), Node(Codec.Double(g))),
      (ChannelKey(Blue), Node(Codec.Double(b))),
      (ChannelKey(Alpha), Node(Codec.Double(a)))]
  {
    ChannelKeysDistinct(Red, Green);
    ChannelKeysDistinct(Red, Blue);
    ChannelKeysDistinct(Red, Alpha);
    ChannelKeysDistinct(Green, Blue);
    ChannelKeysDistinct(Green, Alpha);
    ChannelKeysDistinct(Blue, Alpha);
    OrderedMap.InsertFour(
      ChannelKey(Red), Node(Codec.Double(r)), ChannelKey(Green), Node(Codec.Double(g)),
      ChannelKey(Blue), Node(Codec.Double(b)), ChannelKey(Alpha), Node(Codec.Double(a)));
    var m := OrderedMap.Insert([], ChannelKey(Red), Node(Codec.Double(r)));
    var m := OrderedMap.Insert(m, ChannelKey(Green), Node(Codec.Double(g)));
    var m := OrderedMap.Insert(m, ChannelKey(Blue), Node(Codec.Double(b)));
    OrderedMap.Insert(m, ChannelKey(Alpha), Node(Codec.Double(a)))
  }

  /** The tree value a setting's value becomes. */
  function LeafValue(v: SettingValue): Codec.PropertyValue {
    match v
    case None => Codec.None
    case Bool(x) => Codec.Bool(x)
    case Number(x) => Codec.Double(x)
    case String(s) => Codec.String(s)
    case Color(r, g, b, a) => Codec.Dictionary(ColorEntries(r, g, b, a))
    case Integer(i) => Codec.Integer(i)
  }

  /** A setting's node: a one-entry dictionary holding the value under "value". */
  function EntryProperty(v: SettingValue): (p: Codec.Property)
    ensures !p.anyFlag && p.value == Codec.Dictionary([(VALUE_KEY, Node(LeafValue(v)))])
  {
    Node(Codec.Dictionary(OrderedMap.Insert([], VALUE_KEY, Node(LeafValue(v)))))
  }

  /** The section's entries after the builder's loop has inserted each setting in turn. */
  function SectionEntries(m: Section): seq<(Str, Codec.Property)> {
    OrderedMap.InsertEach(m, EntryProperty)
  }

  /** The node a whole section becomes. */
  function SectionProperty(m: Section): (p: Codec.Property)
    ensures !p.anyFlag && p.value == Codec.Dictionary(SectionEntries(m))
  {
    Node(Codec.Dictionary(SectionEntries(m)))
  }

  /** `from_simple`: the three sections under their names, and the version. */
  function SimpleToSettings(simple: ModSettings): Codec.Settings {
    var root := OrderedMap.Insert([], STARTUP, SectionProperty(simple.startup));
    var root := OrderedMap.Insert(root, RUNTIME_GLOBAL, SectionProperty(simple.runtimeGlobal));
    var root := OrderedMap.Insert(root, RUNTIME_PER_USER, SectionProperty(simple.runtimePerUser));
    Codec.Settings(simple.version, Node(Codec.Dictionary(root)))
  }

  /** `convert_simple_index_map`: one insert per setting, in the section's order. */
  method ConvertSimpleIndexMap(m: Section) returns (p: Codec.Property)
    ensures p == SectionProperty(m)
  {
    var properties: seq<(Str, Codec.Property)> := [];
    for i := 0 to |m|
      invariant properties == SectionEntries(m[..i])
    {
      var (key, value) := m[i];
      var innerProps := OrderedMap.Insert([], VALUE_KEY, Node(LeafValue(value)));
      properties := OrderedMap.Insert(properties, key, Node(Codec.Dictionary(innerProps)));
      assert m[..i + 1][..i] == m[..i];
    }
    assert m[..|m|] == m;
    return Node(Codec.Dictionary(properties));
  }

  /** `from_simple`, building the root map by three inserts. */
  method FromSimple(simple: ModSettings) returns (s: Codec.Settings)
    ensures s == SimpleToSettings(simple)
  {
    var startupProperties := ConvertSimpleIndexMap(simple.startup);
    var runtimeProperties := ConvertSimpleIndexMap(simple.runtimeGlobal);
    var runtimePerUserProperties := ConvertSimpleIndexMap(simple.runtimePerUser);
    var rootMap: seq<(Str, Codec.Property)> := [];
    rootMap := OrderedMap.Insert(rootMap, STARTUP, startupProperties);
    rootMap := OrderedMap.Insert(rootMap, RUNTIME_GLOBAL, runtimeProperties);
    rootMap := OrderedMap.Insert(rootMap, RUNTIME_PER_USER, runtimePerUserProperties);
    s := Codec.Settings(simple.version, Node(Codec.Dictionary(rootMap)));
  }

  // ---------------------------------------------------------------------
  // What the builder produces

  /** Every node of the tree has its flag cleared. */
  predicate FlagsClear(p: Codec.Property)
    decreases p
  {
    && !p.anyFlag
    && match p.value
       case List(items) => forall i | 0 <= i < |items| :: FlagsClear(items[i])
       case Dictionary(es) => forall i | 0 <= i < |es| :: FlagsClear(es[i].1)
       case _ => true
  }

  /** A value the projection reads back: the projection has no None and no Integer case. */
  predicate Representable(v: SettingValue) {
    !v.None? && !v.Integer?
  }

  /** A section as an `IndexMap` holds it (no key twice) with values the projection reads back. */
  predicate SectionWellFormed(m: Section) {
    OrderedMap.UniqueKeys(m) && forall i | 0 <= i < |m| :: Representable(m[i].1)
  }

  predicate WellFormed(simple: ModSettings) {
    SectionWellFormed(simple.startup) && SectionWellFormed(simple.runtimeGlobal) && SectionWellFormed(simple.runtimePerUser)
  }

  /** Every count and length the encoder writes as a u32 fits in one. */
  predicate SectionWithinLimits(m: Section) {
    && |m| < 0x1_0000_0000
    && OrderedMap.UniqueKeys(m)
    && forall i | 0 <= i < |m| :: |m[i].0| < 0x1_0000_0000 && (m[i].1.String? ==> |m[i].1.s| < 0x1_0000_0000)
  }

  predicate WithinLimits(simple: ModSettings) {
    SectionWithinLimits(simple.startup) && SectionWithinLimits(simple.runtimeGlobal) && SectionWithinLimits(simple.runtimePerUser)
  }

  /**
   * A section without repeated keys keeps its keys, count and order: entry i
   * is setting i's name with that setting's node.
   */
  lemma SectionEntriesInOrder(m: Section)
    requires OrderedMap.UniqueKeys(m)
    ensures |SectionEntries(m)| == |m|
    ensures forall i | 0 <= i < |m| :: SectionEntries(m)[i] == (m[i].0, EntryProperty(m[i].1))
  {
    OrderedMap.InsertEachInOrder(m, EntryProperty);
  }

  /** Distinct setting names stay distinct keys of the built section. */
  lemma SectionEntriesUniqueKeys(m: Section)
    requires OrderedMap.UniqueKeys(m)
    ensures OrderedMap.UniqueKeys(SectionEntries(m))
  {
    SectionEntriesInOrder(m);
    var es := SectionEntries(m);
    forall i, j | 0 <= i < j < |es|
      ensures es[i].0 != es[j].0
    {
      assert es[i].0 == m[i].0 && es[j].0 == m[j].0;
    }
  }

  /** The root holds exactly the three sections, in the order startup, runtime-global, runtime-per-user; the version is copied. */
  lemma SimpleToSettingsShape(simple: ModSettings)
    ensures var s := SimpleToSettings(simple);
      && s.version == simple.version
      && s.properties == Node(Codec.Dictionary([
           (STARTUP, SectionProperty(simple.startup)),
           (RUNTIME_GLOBAL, SectionProperty(simple.runtimeGlobal)),
           (RUNTIME_PER_USER, SectionProperty(simple.runtimePerUser))]))
  {
    SectionNamesDistinct();
    OrderedMap.InsertThree(
      STARTUP, SectionProperty(simple.startup),
      RUNTIME_GLOBAL, SectionProperty(simple.runtimeGlobal),
      RUNTIME_PER_USER, SectionProperty(simple.runtimePerUser));
  }

  /** A flagless dictionary node of flagless entries is flagless throughout. */
  lemma DictionaryFlagsClear(es: seq<(Str, Codec.Property)>)
    requires forall i | 0 <= i < |es| :: FlagsClear(es[i].1)
    ensures FlagsClear(Node(Codec.Dictionary(es)))
  {
  }

  lemma EntryFlagsClear(v: SettingValue)
    ensures FlagsClear(EntryProperty(v))
  {
    if v.Color? {
      DictionaryFlagsClear(ColorEntries(v.r, v.g, v.b, v.a));
    }
    DictionaryFlagsClear([(VALUE_KEY, Node(LeafValue(v)))]);
  }

  lemma SectionFlagsClear(m: Section)
    ensures FlagsClear(SectionProperty(m))
  {
    OrderedMap.InsertEachValues(m, EntryProperty);
    var es := SectionEntries(m);
    forall i | 0 <= i < |es|
      ensures FlagsClear(es[i].1)
    {
      var j :| 0 <= j < |m| && es[i].1 == EntryProperty(m[j].1);
      EntryFlagsClear(m[j].1);
    }
    DictionaryFlagsClear(es);
  }

  /** The builder clears every node's flag. */
  lemma SimpleToSettingsFlagsClear(simple: ModSettings)
    ensures FlagsClear(SimpleToSettings(simple).properties)
  {
    SimpleToSettingsShape(simple);
    SectionFlagsClear(simple.startup);
    SectionFlagsClear(simple.runtimeGlobal);
    SectionFlagsClear(simple.runtimePerUser);
    RootFlagsClear(SectionProperty(simple.startup), SectionProperty(simple.runtimeGlobal), SectionProperty(simple.runtimePerUser));
  }

  lemma RootFlagsClear(startup: Codec.Property, runtimeGlobal: Codec.Property, runtimePerUser: Codec.Property)
    requires FlagsClear(startup) && FlagsClear(runtimeGlobal) && FlagsClear(runtimePerUser)
    ensures FlagsClear(Node(Codec.Dictionary([(STARTUP, startup), (RUNTIME_GLOBAL, runtimeGlobal), (RUNTIME_PER_USER, runtimePerUser)])))
  {
    var es := [(STARTUP, startup), (RUNTIME_GLOBAL, runtimeGlobal), (RUNTIME_PER_USER, runtimePerUser)];
    forall i | 0 <= i < |es|
      ensures FlagsClear(es[i].1)
    {
      if i == 0 {
        assert es[i].1 == startup;
      } else if i == 1 {
        assert es[i].1 == runtimeGlobal;
      } else {
        assert es[i].1 == runtimePerUser;
      }
    }
    DictionaryFlagsClear(es);
  }

  // ---------------------------------------------------------------------
  // What the encoder accepts

  /** A dictionary node whose entries are encodable and fit the u32 counts is encodable. */
  lemma DictionaryEncodable(es: seq<(Str, Codec.Property)>)
    requires |es| < 0x1_0000_0000 && OrderedMap.UniqueKeys(es)
    requires forall i | 0 <= i < |es| :: |es[i].0| < 0x1_0000_0000 && Codec.Encodable(es[i].1)
    ensures Codec.Encodable(Node(Codec.Dictionary(es)))
  {
  }

  /** Every tree value a setting becomes is encodable; only a string's length can break the limits. */
  lemma LeafEncodable(v: SettingValue)
    requires v.String? ==> |v.s| < 0x1_0000_0000
    ensures Codec.Encodable(Node(LeafValue(v)))
  {
    match v
    case Color(r, g, b, a) => ColorEncodable(r, g, b, a);
    case _ =>
  }

  lemma ColorEncodable(r: Codec.F64, g: Codec.F64, b: Codec.F64, a: Codec.F64)
    ensures Codec.Encodable(Node(Codec.Dictionary(ColorEntries(r, g, b, a))))
  {
    ChannelKeysDistinct(Red, Green);
    ChannelKeysDistinct(Red, Blue);
    ChannelKeysDistinct(Red, Alpha);
    ChannelKeysDistinct(Green, Blue);
    ChannelKeysDistinct(Green, Alpha);
    ChannelKeysDistinct(Blue, Alpha);
    var es := ColorEntries(r, g, b, a);
    OrderedMap.UniqueFour(
      ChannelKey(Red), Node(Codec.Double(r)), ChannelKey(Green), Node(Codec.Double(g)),
      ChannelKey(Blue), Node(Codec.Double(b)), ChannelKey(Alpha), Node(Codec.Double(a)));
    forall i | 0 <= i < |es|
      ensures |es[i].0| < 0x1_0000_0000 && Codec.Encodable(es[i].1)
    {
      if i == 0 {
        assert es[i] == (ChannelKey(Red), Node(Codec.Double(r)));
      } else if i == 1 {
        assert es[i] == (ChannelKey(Green), Node(Codec.Double(g)));
      } else if i == 2 {
        assert es[i] == (ChannelKey(Blue), Node(Codec.Double(b)));
      } else {
        assert es[i] == (ChannelKey(Alpha), Node(Codec.Double(a)));
      }
    }
    DictionaryEncodable(es);
  }

  lemma EntryEncodable(v: SettingValue)
    requires v.String? ==> |v.s| < 0x1_0000_0000
    ensures Codec.Encodable(EntryProperty(v))
  {
    LeafEncodable(v);
    assert |VALUE_KEY| == 5;
    DictionaryEncodable([(VALUE_KEY, Node(LeafValue(v)))]);
  }

  lemma SectionEncodable(m: Section)
    requires SectionWithinLimits(m)
    ensures Codec.Encodable(SectionProperty(m))
  {
    SectionEntriesInOrder(m);
    SectionEntriesUniqueKeys(m);
    var es := SectionEntries(m);
    forall i | 0 <= i < |es|
      ensures |es[i].0| < 0x1_0000_0000 && Codec.Encodable(es[i].1)
    {
      EntryEncodable(m[i].1);
    }
    DictionaryEncodable(es);
  }

  /** Within the u32 limits, the built tree is one the encoder writes (no list anywhere) and the decoder reads back. */
  lemma SimpleEncodable(simple: ModSettings)
    requires WithinLimits(simple)
    ensures Codec.Encodable(SimpleToSettings(simple).properties)
  {
    SimpleToSettingsShape(simple);
    SectionEncodable(simple.startup);
    SectionEncodable(simple.runtimeGlobal);
    SectionEncodable(simple.runtimePerUser);
    RootEncodable(SectionProperty(simple.startup), SectionProperty(simple.runtimeGlobal), SectionProperty(simple.runtimePerUser));
  }

  /** A root of three encodable sections is encodable. */
  lemma RootEncodable(startup: Codec.Property, runtimeGlobal: Codec.Property, runtimePerUser: Codec.Property)
    requires Codec.Encodable(startup) && Codec.Encodable(runtimeGlobal) && Codec.Encodable(runtimePerUser)
    ensures Codec.Encodable(Node(Codec.Dictionary([(STARTUP, startup), (RUNTIME_GLOBAL, runtimeGlobal), (RUNTIME_PER_USER, runtimePerUser)])))
  {
    SectionNamesDistinct();
    OrderedMap.UniqueThree(STARTUP, startup, RUNTIME_GLOBAL, runtimeGlobal, RUNTIME_PER_USER, runtimePerUser);
    var es := [(STARTUP, startup), (RUNTIME_GLOBAL, runtimeGlobal), (RUNTIME_PER_USER, runtimePerUser)];
    forall i | 0 <= i < |es|
      ensures |es[i].0| < 0x1_0000_0000 && Codec.Encodable(es[i].1)
    {
      assert |STARTUP| == 7 && |RUNTIME_GLOBAL| == 14 && |RUNTIME_PER_USER| == 16;
      if i == 0 {
        assert es[i] == (STARTUP, startup);
      } else if i == 1 {
        assert es[i] == (RUNTIME_GLOBAL, runtimeGlobal);
      } else {
        assert es[i] == (RUNTIME_PER_USER, runtimePerUser);
      }
    }
    DictionaryEncodable(es);
  }

  // ---------------------------------------------------------------------
  // Reading the built tree back

  /** Every colour of the section is read back by `readColor` from the dictionary the builder makes of it. */
  predicate ColoursReadBack(m: Section, readColor: ColorReader) {
    forall i | 0 <= i < |m| :: m[i].1.Color? ==>
      readColor(ColorEntries(m[i].1.r, m[i].1.g, m[i].1.b, m[i].1.a)) == Ok(m[i].1)
  }

  predicate RecordColoursReadBack(simple: ModSettings, readColor: ColorReader) {
    && ColoursReadBack(simple.startup, readColor)
    && ColoursReadBack(simple.runtimeGlobal, readColor)
    && ColoursReadBack(simple.runtimePerUser, readColor)
  }

  /** Every colour of the section has four equal channels. */
  predicate GreyColours(m: Section) {
    forall i | 0 <= i < |m| :: m[i].1.Color? ==> m[i].1.g == m[i].1.r && m[i].1.b == m[i].1.r && m[i].1.a == m[i].1.r
  }

  predicate GreyRecord(simple: ModSettings) {
    GreyColours(simple.startup) && GreyColours(simple.runtimeGlobal) && GreyColours(simple.runtimePerUser)
  }

  /** The intended colour reader recovers the four channels the builder stored. */
  lemma ColorRoundTrip(r: Codec.F64, g: Codec.F64, b: Codec.F64, a: Codec.F64)
    ensures ColorFrom(ColorEntries(r, g, b, a)) == Ok(Color(r, g, b, a))
  {
    var es := ColorEntries(r, g, b, a);
    ChannelKeysDistinct(Red, Green);
    ChannelKeysDistinct(Red, Blue);
    ChannelKeysDistinct(Red, Alpha);
    ChannelKeysDistinct(Green, Blue);
    ChannelKeysDistinct(Green, Alpha);
    ChannelKeysDistinct(Blue, Alpha);
    OrderedMap.UniqueFour(
      ChannelKey(Red), Node(Codec.Double(r)), ChannelKey(Green), Node(Codec.Double(g)),
      ChannelKey(Blue), Node(Codec.Double(b)), ChannelKey(Alpha), Node(Codec.Double(a)));
    OrderedMap.GetAt(es, 0);
    OrderedMap.GetAt(es, 1);
    OrderedMap.GetAt(es, 2);
    OrderedMap.GetAt(es, 3);
  }

  /** The as-written colour reader returns the stored red channel four times. */
  lemma ColorAsWrittenRoundTrip(r: Codec.F64, g: Codec.F64, b: Codec.F64, a: Codec.F64)
    ensures ColorFromAsWritten(ColorEntries(r, g, b, a)) == Ok(Color(r, r, r, r))
  {
    var es := ColorEntries(r, g, b, a);
    ChannelKeysDistinct(Red, Green);
    ChannelKeysDistinct(Red, Blue);
    ChannelKeysDistinct(Red, Alpha);
    ChannelKeysDistinct(Green, Blue);
    ChannelKeysDistinct(Green, Alpha);
    ChannelKeysDistinct(Blue, Alpha);
    OrderedMap.UniqueFour(
      ChannelKey(Red), Node(Codec.Double(r)), ChannelKey(Green), Node(Codec.Double(g)),
      ChannelKey(Blue), Node(Codec.Double(b)), ChannelKey(Alpha), Node(Codec.Double(a)));
    OrderedMap.GetAt(es, 0);
    ColorAsWrittenReadsRed(es);
  }

  /** The intended reader reads back every colour of every section. */
  lemma CorrectedColoursReadBack(m: Section)
    ensures ColoursReadBack(m, ColorFrom)
  {
    forall i | 0 <= i < |m| && m[i].1.Color?
      ensures ColorFrom(ColorEntries(m[i].1.r, m[i].1.g, m[i].1.b, m[i].1.a)) == Ok(m[i].1)
    {
      ColorRoundTrip(m[i].1.r, m[i].1.g, m[i].1.b, m[i].1.a);
    }
  }

  /** The as-written reader reads back the colours of a section exactly when their four channels are equal. */
  lemma AsWrittenColoursReadBack(m: Section)
    ensures ColoursReadBack(m, ColorFromAsWritten) <==> GreyColours(m)
  {
    forall i | 0 <= i < |m| && m[i].1.Color?
      ensures ColorFromAsWritten(ColorEntries(m[i].1.r, m[i].1.g, m[i].1.b, m[i].1.a)) == Ok(Color(m[i].1.r, m[i].1.r, m[i].1.r, m[i].1.r))
    {
      ColorAsWrittenRoundTrip(m[i].1.r, m[i].1.g, m[i].1.b, m[i].1.a);
    }
  }

  /**
   * A setting's tree value reads back as that setting, for every value the
   * projection has a case for, provided `readColor` reads a colour back.
   */
  lemma LeafRoundTrip(v: SettingValue, readColor: ColorReader)
    requires Representable(v)
    requires v.Color? ==> readColor(ColorEntries(v.r, v.g, v.b, v.a)) == Ok(v)
    ensures LeafWith(LeafValue(v), readColor) == Ok(v)
  {
    match v
    case Bool(x) =>
      assert LeafValue(v) == Codec.Bool(x);
    case Number(x) =>
      assert LeafValue(v) == Codec.Double(x);
    case String(x) =>
      assert LeafValue(v) == Codec.String(x);
    case Color(r, g, b, a) =>
      assert LeafValue(v) == Codec.Dictionary(ColorEntries(r, g, b, a));
  }

  /** A colour's tree value is read by the colour reader alone. */
  lemma ColorLeaf(v: SettingValue, readColor: ColorReader)
    requires v.Color?
    ensures LeafWith(LeafValue(v), readColor) == readColor(ColorEntries(v.r, v.g, v.b, v.a))
  {
    match v
    case Color(r, g, b, a) =>
      assert LeafValue(v) == Codec.Dictionary(ColorEntries(r, g, b, a));
  }

  /** A setting's node holds its tree value under "value". */
  lemma EntryValue(v: SettingValue, readColor: ColorReader)
    ensures SettingValueWith(EntryProperty(v), readColor) == LeafWith(LeafValue(v), readColor)
  {
    var d := [(VALUE_KEY, Node(LeafValue(v)))];
    assert OrderedMap.Get(d, VALUE_KEY) == Some(Node(LeafValue(v)));
  }

  /** A setting's node reads back as that setting, for every value the projection has a case for. */
  lemma EntryRoundTrip(v: SettingValue, readColor: ColorReader)
    requires Representable(v)
    requires v.Color? ==> readColor(ColorEntries(v.r, v.g, v.b, v.a)) == Ok(v)
    ensures SettingValueWith(EntryProperty(v), readColor) == Ok(v)
  {
    EntryValue(v, readColor);
    LeafRoundTrip(v, readColor);
  }

  /** None and Integer settings are written, but reading their node back fails. */
  lemma EntryNotRecovered(v: SettingValue, readColor: ColorReader)
    requires !Representable(v)
    ensures SettingValueWith(EntryProperty(v), readColor) == Err(InvalidValueType(LeafValue(v)))
  {
    EntryValue(v, readColor);
  }

  /** A well-formed section survives building and reading back unchanged: same keys, order and values. */
  lemma SectionRoundTrip(m: Section, readColor: ColorReader)
    requires SectionWellFormed(m) && ColoursReadBack(m, readColor)
    ensures Collect(SectionEntries(m), EntryConverter(readColor)) == Ok(m)
  {
    SectionEntriesInOrder(m);
    var es := SectionEntries(m);
    forall i | 0 <= i < |es|
      ensures SettingValueWith(es[i].1, readColor) == Ok(m[i].1)
    {
      EntryRoundTrip(m[i].1, readColor);
    }
    CollectSucceeds(es, EntryConverter(readColor));
    SectionEntriesUniqueKeys(m);
    CollectKeepsEntries(es, EntryConverter(readColor));
    var out := Collect(es, EntryConverter(readColor)).value;
    assert forall i | 0 <= i < |m| :: out[i] == m[i];
    assert out == m;
  }

  /** A section that reads back whole had every colour read back by `readColor`. */
  lemma SectionReadBackColours(m: Section, readColor: ColorReader)
    requires OrderedMap.UniqueKeys(m)
    requires Collect(SectionEntries(m), EntryConverter(readColor)) == Ok(m)
    ensures ColoursReadBack(m, readColor)
  {
    SectionEntriesInOrder(m);
    SectionEntriesUniqueKeys(m);
    var es := SectionEntries(m);
    CollectKeepsEntries(es, EntryConverter(readColor));
    forall i | 0 <= i < |m| && m[i].1.Color?
      ensures readColor(ColorEntries(m[i].1.r, m[i].1.g, m[i].1.b, m[i].1.a)) == Ok(m[i].1)
    {
      assert SettingValueWith(es[i].1, readColor) == Ok(m[i].1);
      EntryValue(m[i].1, readColor);
      ColorLeaf(m[i].1, readColor);
    }
  }

  /** A section holding a None or Integer setting cannot be read back. */
  lemma SectionNotRecovered(m: Section, i: nat, readColor: ColorReader)
    requires OrderedMap.UniqueKeys(m)
    requires i < |m| && !Representable(m[i].1)
    ensures Collect(SectionEntries(m), EntryConverter(readColor)).Err?
  {
    SectionEntriesInOrder(m);
    EntryNotRecovered(m[i].1, readColor);
    CollectSucceeds(SectionEntries(m), EntryConverter(readColor));
  }

  /** The three sections, each looked up under its name in the built root. */
  lemma RootLookups(simple: ModSettings)
    ensures var root := SimpleToSettings(simple).properties.value.entries;
      && OrderedMap.Get(root, STARTUP) == Some(SectionProperty(simple.startup))
      && OrderedMap.Get(root, RUNTIME_GLOBAL) == Some(SectionProperty(simple.runtimeGlobal))
      && OrderedMap.Get(root, RUNTIME_PER_USER) == Some(SectionProperty(simple.runtimePerUser))
  {
    SimpleToSettingsShape(simple);
    SectionNamesDistinct();
    OrderedMap.GetThree(
      STARTUP, SectionProperty(simple.startup),
      RUNTIME_GLOBAL, SectionProperty(simple.runtimeGlobal),
      RUNTIME_PER_USER, SectionProperty(simple.runtimePerUser));
  }

  /**
   * Building a well-formed record and projecting the tree gives back the
   * record exactly when the colour reader reads back its colours.
   */
  lemma RoundTrip(simple: ModSettings, readColor: ColorReader)
    requires WellFormed(simple)
    ensures ToSimple(SimpleToSettings(simple), readColor) == Ok(simple) <==> RecordColoursReadBack(simple, readColor)
  {
    RootLookups(simple);
    if ToSimple(SimpleToSettings(simple), readColor) == Ok(simple) {
      SectionReadBackColours(simple.startup, readColor);
      SectionReadBackColours(simple.runtimeGlobal, readColor);
      SectionReadBackColours(simple.runtimePerUser, readColor);
    }
    if RecordColoursReadBack(simple, readColor) {
      SectionRoundTrip(simple.startup, readColor);
      SectionRoundTrip(simple.runtimeGlobal, readColor);
      SectionRoundTrip(simple.runtimePerUser, readColor);
    }
  }

  /** With the intended colour reader, every well-formed record comes back. */
  lemma CorrectedRoundTrip(simple: ModSettings)
    requires WellFormed(simple)
    ensures ToSimple(SimpleToSettings(simple), ColorFrom) == Ok(simple)
  {
    CorrectedColoursReadBack(simple.startup);
    CorrectedColoursReadBack(simple.runtimeGlobal);
    CorrectedColoursReadBack(simple.runtimePerUser);
    RoundTrip(simple, ColorFrom);
  }

  /**
   * With the colour reader as written, a well-formed record comes back
   * exactly when each of its colours has four equal channels.
   */
  lemma AsWrittenRoundTrip(simple: ModSettings)
    requires WellFormed(simple)
    ensures ToSimple(SimpleToSettings(simple), ColorFromAsWritten) == Ok(simple) <==> GreyRecord(simple)
  {
    AsWrittenColoursReadBack(simple.startup);
    AsWrittenColoursReadBack(simple.runtimeGlobal);
    AsWrittenColoursReadBack(simple.runtimePerUser);
    RoundTrip(simple, ColorFromAsWritten);
  }

  /** A record holding a None or Integer setting is built, but its projection fails. */
  lemma NotRecovered(simple: ModSettings, section: Section, i: nat, readColor: ColorReader)
    requires OrderedMap.UniqueKeys(section)
    requires section == simple.startup || section == simple.runtimeGlobal || section == simple.runtimePerUser
    requires i < |section| && !Representable(section[i].1)
    ensures ToSimple(SimpleToSettings(simple), readColor).Err?
  {
    RootLookups(simple);
    SectionNotRecovered(section, i, readColor);
  }

  /**
   * The whole path: a well-formed record within the u32 limits, built into a
   * tree, encoded to a file and decoded again, consumes the whole file and
   * projects back to the record when the colour reader reads its colours back.
   */
  lemma FileRoundTrip(simple: ModSettings, readColor: ColorReader)
    requires WellFormed(simple) && WithinLimits(simple) && RecordColoursReadBack(simple, readColor)
    ensures var t := SimpleToSettings(simple);
      && Codec.Encodable(t.properties)
      && var d := Codec.DecodeSettings(Codec.EncodeSettings(t));
      && d.Ok? && d.value.value == t && d.value.rest == []
      && ToSimple(d.value.value, readColor) == Ok(simple)
  {
    var t := SimpleToSettings(simple);
    SimpleEncodable(simple);
    CodecProperties.SettingsRoundTrip(t, []);
    assert Codec.EncodeSettings(t) + [] == Codec.EncodeSettings(t);
    RoundTrip(simple, readColor);
  }
}
