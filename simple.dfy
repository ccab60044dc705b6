/**
 * The flat settings record (`ModSettings`) and the projection of a decoded
 * property tree onto it (`TryFrom<&Settings>` and `TryFrom<&Property>`).
 */
module Simple {
  import opened Wrappers
  import opened Bytes
  import opened Utf8
  import opened Types
  import Codec
  import OrderedMap

  /**
   * One setting's value. `Number` is the tree's `Double`, under the name the
   * projection uses; `Integer` is the case the tree builder also accepts.
   */
  datatype SettingValue =
    | None
    | Bool(flag: bool)
    | Number(n: Codec.F64)
    | String(s: Str)
    | Color(r: Codec.F64, g: Codec.F64, b: Codec.F64, a: Codec.F64)
    | Integer(i: I64)

  /** A section: setting name to value, in file order. */
  type Section = seq<(Str, SettingValue)>

  datatype ModSettings = ModSettings(version: FactorioVersion, startup: Section, runtimeGlobal: Section, runtimePerUser: Section)

  datatype Channel = Red | Green | Blue | Alpha

  datatype ConversionError =
    | RootNotDictionary
    | MissingSection(section: Str)
    | SectionNotDictionary(section: Str)
    | EntryNotDictionary
    | MissingValue
    | InvalidValueType(found: Codec.PropertyValue)
    | MissingChannel(channel: Channel)
    | ChannelNotNumber(channel: Channel)

  const STARTUP: Str := FromAscii("startup")
  const RUNTIME_GLOBAL: Str := FromAscii("runtime-global")
  const RUNTIME_PER_USER: Str := FromAscii("runtime-per-user")
  const VALUE_KEY: Str := FromAscii("value")

  /** A reader of a colour from its dictionary. */
  type ColorReader = seq<(Str, Codec.Property)> -> Result<SettingValue, ConversionError>

  /** The dictionary key a colour channel is stored under. */
  function ChannelKey(c: Channel): (k: Str)
    ensures |k| == 1
  {
    match c
    case Red => [0x72]      // "r"
    case Green => [0x67]    // "g"
    case Blue => [0x62]     // "b"
    case Alpha => [0x61]    // "a"
  }

  /** Distinct channels have distinct keys. */
  lemma ChannelKeysDistinct(c: Channel, d: Channel)
    requires c != d
    ensures ChannelKey(c) != ChannelKey(d)
  {
    assert ChannelKey(c)[0] != ChannelKey(d)[0];
  }

  /** The three section names are pairwise different. */
  lemma SectionNamesDistinct()
    ensures STARTUP != RUNTIME_GLOBAL && STARTUP != RUNTIME_PER_USER && RUNTIME_GLOBAL != RUNTIME_PER_USER
  {
    assert |STARTUP| == 7 && |RUNTIME_GLOBAL| == 14 && |RUNTIME_PER_USER| == 16;
  }

  /**
   * Looking up one colour channel under `key`: missing, or not a number, is
   * an error naming the channel `c`.
   */
  function ChannelValue(d: seq<(Str, Codec.Property)>, c: Channel, key: Str): (r: Result<Codec.F64, ConversionError>)
    ensures r.Ok? <==> OrderedMap.Get(d, key).Some? && OrderedMap.Get(d, key).value.value.Double?
    ensures r.Ok? ==> OrderedMap.Get(d, key).value.value == Codec.Double(r.value)
    ensures OrderedMap.Get(d, key).None? ==> r == Err(MissingChannel(c))
  {
    match OrderedMap.Get(d, key)
    case None => Err(MissingChannel(c))
    case Some(p) =>
      match p.value.AsDouble()
      case None => Err(ChannelNotNumber(c))
      case Some(x) => Ok(x)
  }

  /**
   * The colour reader as the source writes it: every one of the four
   * channels is read from key "r".
   */
  function ColorFromAsWritten(d: seq<(Str, Codec.Property)>): (res: Result<SettingValue, ConversionError>) {
    match ChannelValue(d, Red, ChannelKey(Red))
    case Err(e) => Err(e)
    case Ok(r) =>
      match ChannelValue(d, Green, ChannelKey(Red))
      case Err(e) => Err(e)
      case Ok(g) =>
        match ChannelValue(d, Blue, ChannelKey(Red))
        case Err(e) => Err(e)
        case Ok(b) =>
          match ChannelValue(d, Alpha, ChannelKey(Red))
          case Err(e) => Err(e)
          case Ok(a) => Ok(Color(r, g, b, a))
  }

  /** The colour reader as intended: each channel from its own key, r, g, b, a in that order. */
  function ColorFrom(d: seq<(Str, Codec.Property)>): (res: Result<SettingValue, ConversionError>)
    ensures res.Ok? <==>
      && ChannelValue(d, Red, ChannelKey(Red)).Ok?
      && ChannelValue(d, Green, ChannelKey(Green)).Ok?
      && ChannelValue(d, Blue, ChannelKey(Blue)).Ok?
      && ChannelValue(d, Alpha, ChannelKey(Alpha)).Ok?
    ensures res.Ok? ==> res.value.Color?
    ensures res.Ok? ==>
      && OrderedMap.Get(d, ChannelKey(Red)).value.value == Codec.Double(res.value.r)
      && OrderedMap.Get(d, ChannelKey(Green)).value.value == Codec.Double(res.value.g)
      && OrderedMap.Get(d, ChannelKey(Blue)).value.value == Codec.Double(res.value.b)
      && OrderedMap.Get(d, ChannelKey(Alpha)).value.value == Codec.Double(res.value.a)
  {
    match ChannelValue(d, Red, ChannelKey(Red))
    case Err(e) => Err(e)
    case Ok(r) =>
      match ChannelValue(d, Green, ChannelKey(Green))
      case Err(e) => Err(e)
      case Ok(g) =>
        match ChannelValue(d, Blue, ChannelKey(Blue))
        case Err(e) => Err(e)
        case Ok(b) =>
          match ChannelValue(d, Alpha, ChannelKey(Alpha))
          case Err(e) => Err(e)
          case Ok(a) => Ok(Color(r, g, b, a))
  }

  /**
   * The inner `match` of `TryFrom<&Property> for ModSettingsValue`: a Bool,
   * Double or String maps to the setting of that kind, a dictionary is read
   * as a colour by `readColor`, anything else is rejected. The colour reader
   * is a parameter so that the as-written and the corrected projection share
   * one definition.
   */
  function LeafWith(inner: Codec.PropertyValue, readColor: ColorReader): (res: Result<SettingValue, ConversionError>)
    ensures inner.Bool? ==> res == Ok(SettingValue.Bool(inner.b))
    ensures inner.Double? ==> res == Ok(Number(inner.d))
    ensures inner.String? ==> res == Ok(SettingValue.String(inner.s))
    ensures inner.Dictionary? ==> res == readColor(inner.entries)
    ensures inner.None? || inner.List? || inner.Integer? ==> res == Err(InvalidValueType(inner))
  {
    match inner
    case Bool(x) => Ok(SettingValue.Bool(x))
    case Double(x) => Ok(Number(x))
    case String(s) => Ok(SettingValue.String(s))
    case Dictionary(c) => readColor(c)
    case _ => Err(InvalidValueType(inner))
  }

  /** `TryFrom<&Property> for ModSettingsValue`: the entry must be a dictionary holding "value". */
  function SettingValueWith(p: Codec.Property, readColor: ColorReader): (res: Result<SettingValue, ConversionError>)
    ensures !p.value.Dictionary? ==> res == Err(EntryNotDictionary)
    ensures p.value.Dictionary? && OrderedMap.Get(p.value.entries, VALUE_KEY).None? ==> res == Err(MissingValue)
    ensures p.value.Dictionary? && OrderedMap.Get(p.value.entries, VALUE_KEY).Some? ==>
      res == LeafWith(OrderedMap.Get(p.value.entries, VALUE_KEY).value.value, readColor)
  {
    match p.value
    case Dictionary(d) =>
      (match OrderedMap.Get(d, VALUE_KEY)
       case None => Err(MissingValue)
       case Some(inner) => LeafWith(inner.value, readColor))
    case _ => Err(EntryNotDictionary)
  }

  /** The entry projection as the source writes it, colours read by `ColorFromAsWritten`. */
  function SettingValueAsWritten(p: Codec.Property): (res: Result<SettingValue, ConversionError>)
    ensures !p.value.Dictionary? ==> res == Err(EntryNotDictionary)
    ensures p.value.Dictionary? && OrderedMap.Get(p.value.entries, VALUE_KEY).None? ==> res == Err(MissingValue)
  {
    SettingValueWith(p, ColorFromAsWritten)
  }

  /** The entry projection with the corrected colour reader. */
  function SettingValueFrom(p: Codec.Property): (res: Result<SettingValue, ConversionError>)
    ensures !p.value.Dictionary? ==> res == Err(EntryNotDictionary)
    ensures p.value.Dictionary? && OrderedMap.Get(p.value.entries, VALUE_KEY).None? ==> res == Err(MissingValue)
    ensures res.Ok? ==> !res.value.None? && !res.value.Integer?
  {
    SettingValueWith(p, ColorFrom)
  }

  /** The entry projection with colour reader `readColor`, as a function value. */
  function EntryConverter(readColor: ColorReader): Codec.Property -> Result<SettingValue, ConversionError> {
    p => SettingValueWith(p, readColor)
  }

  /**
   * `.collect::<Result<IndexMap<_, _>, _>>()` over the entries, each
   * converted by `convert` (the entry projection).
   */
  function Collect(es: seq<(Str, Codec.Property)>, convert: Codec.Property -> Result<SettingValue, ConversionError>): (res: Result<Section, ConversionError>)
    decreases |es|
  {
    if es == [] then Ok([])
    else
      var init :- Collect(es[..|es| - 1], convert);
      var v :- convert(es[|es| - 1].1);
      Ok(OrderedMap.Insert(init, es[|es| - 1].0, v))
  }

  /**
   * `property_map_parse`: the named section, which must exist and be a
   * dictionary, converted entry by entry. The source's projection is
   * `readColor := ColorFromAsWritten`.
   */
  function PropertyMapParse(root: seq<(Str, Codec.Property)>, key: Str, readColor: ColorReader): (res: Result<Section, ConversionError>)
    ensures OrderedMap.Get(root, key).None? ==> res == Err(MissingSection(key))
    ensures OrderedMap.Get(root, key).Some? && !OrderedMap.Get(root, key).value.value.Dictionary? ==>
      res == Err(SectionNotDictionary(key))
    ensures OrderedMap.Get(root, key).Some? && OrderedMap.Get(root, key).value.value.Dictionary? ==>
      res == Collect(OrderedMap.Get(root, key).value.value.entries, EntryConverter(readColor))
  {
    match OrderedMap.Get(root, key)
    case None => Err(MissingSection(key))
    case Some(section) =>
      match section.value.AsDictionary()
      case None => Err(SectionNotDictionary(key))
      case Some(es) => Collect(es, EntryConverter(readColor))
  }

  /**
   * `TryFrom<&Settings> for ModSettings`: the sections are parsed in the
   * order startup, runtime-global, runtime-per-user, and the first failure
   * is the result. The source's projection is `readColor := ColorFromAsWritten`.
   */
  function ToSimple(s: Codec.Settings, readColor: ColorReader): (res: Result<ModSettings, ConversionError>)
    ensures !s.properties.value.Dictionary? ==> res == Err(RootNotDictionary)
    ensures res.Ok? ==> res.value.version == s.version
    ensures res.Ok? ==>
      && s.properties.value.Dictionary?
      && PropertyMapParse(s.properties.value.entries, STARTUP, readColor) == Ok(res.value.startup)
      && PropertyMapParse(s.properties.value.entries, RUNTIME_GLOBAL, readColor) == Ok(res.value.runtimeGlobal)
      && PropertyMapParse(s.properties.value.entries, RUNTIME_PER_USER, readColor) == Ok(res.value.runtimePerUser)
    ensures s.properties.value.Dictionary? ==>
      var startup := PropertyMapParse(s.properties.value.entries, STARTUP, readColor);
      var global := PropertyMapParse(s.properties.value.entries, RUNTIME_GLOBAL, readColor);
      var perUser := PropertyMapParse(s.properties.value.entries, RUNTIME_PER_USER, readColor);
      && (startup.Err? ==> res == Err(startup.error))
      && (startup.Ok? && global.Err? ==> res == Err(global.error))
      && (startup.Ok? && global.Ok? && perUser.Err? ==> res == Err(perUser.error))
  {
    match s.properties.value.AsDictionary()
    case None => Err(RootNotDictionary)
    case Some(root) =>
      var startup :- PropertyMapParse(root, STARTUP, readColor);
      var runtimeGlobal :- PropertyMapParse(root, RUNTIME_GLOBAL, readColor);
      var runtimePerUser :- PropertyMapParse(root, RUNTIME_PER_USER, readColor);
      Ok(ModSettings(s.version, startup, runtimeGlobal, runtimePerUser))
  }


  // ---------------------------------------------------------------------
  // Properties of the projection

  /** A section converts exactly when every one of its entries converts. */
  lemma {:induction false} CollectSucceeds(es: seq<(Str, Codec.Property)>, convert: Codec.Property -> Result<SettingValue, ConversionError>)
    ensures Collect(es, convert).Ok? <==> forall i | 0 <= i < |es| :: convert(es[i].1).Ok?
    decreases |es|
  {
    if es != [] {
      var init := es[..|es| - 1];
      CollectSucceeds(init, convert);
      assert forall i | 0 <= i < |init| :: init[i] == es[i];
      assert Collect(es, convert).Ok? <==> Collect(init, convert).Ok? && convert(es[|es| - 1].1).Ok?;
    }
  }

  /** A failing section reports the error of its first failing entry. */
  lemma {:induction false} CollectFirstError(es: seq<(Str, Codec.Property)>, convert: Codec.Property -> Result<SettingValue, ConversionError>)
    requires Collect(es, convert).Err?
    ensures exists i | 0 <= i < |es| ::
      && (forall j | 0 <= j < i :: convert(es[j].1).Ok?)
      && convert(es[i].1) == Err(Collect(es, convert).error)
    decreases |es|
  {
    var init := es[..|es| - 1];
    assert forall i | 0 <= i < |init| :: init[i] == es[i];
    if Collect(init, convert).Err? {
      CollectFirstError(init, convert);
      var i :| 0 <= i < |init| && (forall j | 0 <= j < i :: convert(init[j].1).Ok?) && convert(init[i].1) == Err(Collect(init, convert).error);
      assert convert(es[i].1) == Err(Collect(es, convert).error);
    } else {
      CollectSucceeds(init, convert);
      assert convert(es[|es| - 1].1) == Err(Collect(es, convert).error);
    }
  }

  /**
   * A converted section has the raw section's keys, in the same order, each
   * with its entry's converted value.
   */
  lemma {:induction false} CollectKeepsEntries(es: seq<(Str, Codec.Property)>, convert: Codec.Property -> Result<SettingValue, ConversionError>)
    requires OrderedMap.UniqueKeys(es)
    requires Collect(es, convert).Ok?
    ensures var out := Collect(es, convert).value;
      && |out| == |es|
      && forall i | 0 <= i < |es| :: out[i].0 == es[i].0 && convert(es[i].1) == Ok(out[i].1)
    decreases |es|
  {
    if es != [] {
      var init := es[..|es| - 1];
      var last := es[|es| - 1];
      assert forall i | 0 <= i < |init| :: init[i] == es[i];
      CollectKeepsEntries(init, convert);
      var prior := Collect(init, convert).value;
      assert last.0 !in OrderedMap.Keys(prior) by {
        forall k | 0 <= k < |prior|
          ensures OrderedMap.Keys(prior)[k] != last.0
        {
          assert OrderedMap.Keys(prior)[k] == es[k].0;
        }
      }
      var v := convert(last.1).value;
      assert Collect(es, convert) == Ok(OrderedMap.Insert(prior, last.0, v));
      var out := prior + [(last.0, v)];
      assert Collect(es, convert).value == out;
      forall i | 0 <= i < |es|
        ensures out[i].0 == es[i].0 && convert(es[i].1) == Ok(out[i].1)
      {
        if i < |init| {
          assert out[i] == prior[i];
        }
      }
    }
  }

  /** Any other kind of inner value (None, List, Integer) is rejected, naming that value. */
  lemma OtherKindsRejected(p: Codec.Property, readColor: ColorReader)
    requires p.value.Dictionary? && OrderedMap.Get(p.value.entries, VALUE_KEY).Some?
    requires var inner := OrderedMap.Get(p.value.entries, VALUE_KEY).value.value;
      inner.None? || inner.List? || inner.Integer?
    ensures SettingValueWith(p, readColor) == Err(InvalidValueType(OrderedMap.Get(p.value.entries, VALUE_KEY).value.value))
  {
  }

  /** Every section of a successful projection converts; so a missing or malformed section fails it. */
  lemma ToSimpleSucceeds(s: Codec.Settings, readColor: ColorReader)
    requires s.properties.value.Dictionary?
    ensures var root := s.properties.value.entries;
      ToSimple(s, readColor).Ok? <==>
        && PropertyMapParse(root, STARTUP, readColor).Ok?
        && PropertyMapParse(root, RUNTIME_GLOBAL, readColor).Ok?
        && PropertyMapParse(root, RUNTIME_PER_USER, readColor).Ok?
  {
  }

  // ---------------------------------------------------------------------
  // The colour reader as written

  /**
   * As written, the colour reader succeeds exactly when "r" holds a number,
   * and then every channel of the colour is that number.
   */
  lemma ColorAsWrittenReadsRed(d: seq<(Str, Codec.Property)>)
    ensures ColorFromAsWritten(d).Ok? <==> ChannelValue(d, Red, ChannelKey(Red)).Ok?
    ensures ColorFromAsWritten(d).Ok? ==>
      var x := ChannelValue(d, Red, ChannelKey(Red)).value;
      ColorFromAsWritten(d).value == Color(x, x, x, x)
  {
  }

  /** A colour of four distinct channels, as the tree builder lays it out. */
  function SampleColorDictionary(): (d: seq<(Str, Codec.Property)>)
    ensures |d| == 4
  {
    [ (ChannelKey(Red), Codec.Property(false, Codec.Double(1))),
      (ChannelKey(Green), Codec.Property(false, Codec.Double(2))),
      (ChannelKey(Blue), Codec.Property(false, Codec.Double(3))),
      (ChannelKey(Alpha), Codec.Property(false, Codec.Double(4))) ]
  }

  /**
   * The defect: on the colour (1, 2, 3, 4) the as-written reader returns
   * (1, 1, 1, 1), while the intended reader returns the colour stored.
   */
  lemma ColorAsWrittenCounterexample()
    ensures ColorFromAsWritten(SampleColorDictionary()) == Ok(Color(1, 1, 1, 1))
    ensures ColorFrom(SampleColorDictionary()) == Ok(Color(1, 2, 3, 4))
  {
    var d := SampleColorDictionary();
    ChannelKeysDistinct(Red, Green);
    ChannelKeysDistinct(Red, Blue);
    ChannelKeysDistinct(Red, Alpha);
    ChannelKeysDistinct(Green, Blue);
    ChannelKeysDistinct(Green, Alpha);
    ChannelKeysDistinct(Blue, Alpha);
    OrderedMap.UniqueFour(d[0].0, d[0].1, d[1].0, d[1].1, d[2].0, d[2].1, d[3].0, d[3].1);
    OrderedMap.GetAt(d, 0);
    OrderedMap.GetAt(d, 1);
    OrderedMap.GetAt(d, 2);
    OrderedMap.GetAt(d, 3);
  }

  /** Off colours, the as-written and the corrected projections agree. */
  lemma AsWrittenAgreesOffColours(p: Codec.Property)
    requires HoldsNoColour(p)
    ensures SettingValueAsWritten(p) == SettingValueFrom(p)
  {
  }

  /** The entry holds no dictionary under "value", so no colour is read from it. */
  predicate HoldsNoColour(p: Codec.Property) {
    p.value.Dictionary? && OrderedMap.Get(p.value.entries, VALUE_KEY).Some? ==>
      !OrderedMap.Get(p.value.entries, VALUE_KEY).value.value.Dictionary?
  }

  /** The section under `key`, when it is a dictionary, has no colour entry. */
  predicate SectionHoldsNoColour(root: seq<(Str, Codec.Property)>, key: Str) {
    OrderedMap.Get(root, key).Some? && OrderedMap.Get(root, key).value.value.Dictionary? ==>
      var es := OrderedMap.Get(root, key).value.value.entries;
      forall i | 0 <= i < |es| :: HoldsNoColour(es[i].1)
  }

  /** None of the three sections of the file holds a colour entry. */
  predicate SettingsHoldNoColour(s: Codec.Settings) {
    s.properties.value.Dictionary? ==>
      && SectionHoldsNoColour(s.properties.value.entries, STARTUP)
      && SectionHoldsNoColour(s.properties.value.entries, RUNTIME_GLOBAL)
      && SectionHoldsNoColour(s.properties.value.entries, RUNTIME_PER_USER)
  }

  /** Two entry projections that convert every entry alike collect the section alike. */
  lemma {:induction false} CollectAgrees(es: seq<(Str, Codec.Property)>, convert: Codec.Property -> Result<SettingValue, ConversionError>, other: Codec.Property -> Result<SettingValue, ConversionError>)
    requires forall i | 0 <= i < |es| :: convert(es[i].1) == other(es[i].1)
    ensures Collect(es, convert) == Collect(es, other)
    decreases |es|
  {
    if es != [] {
      var init := es[..|es| - 1];
      assert forall i | 0 <= i < |init| :: init[i] == es[i];
      CollectAgrees(init, convert, other);
      assert convert(es[|es| - 1].1) == other(es[|es| - 1].1);
    }
  }

  /** Off colours, a section parses alike under the as-written and the corrected reader. */
  lemma PropertyMapParseAgreesOffColours(root: seq<(Str, Codec.Property)>, key: Str)
    requires SectionHoldsNoColour(root, key)
    ensures PropertyMapParse(root, key, ColorFromAsWritten) == PropertyMapParse(root, key, ColorFrom)
  {
    if OrderedMap.Get(root, key).Some? && OrderedMap.Get(root, key).value.value.Dictionary? {
      var es := OrderedMap.Get(root, key).value.value.entries;
      forall i | 0 <= i < |es|
        ensures SettingValueWith(es[i].1, ColorFromAsWritten) == SettingValueWith(es[i].1, ColorFrom)
      {
        AsWrittenAgreesOffColours(es[i].1);
      }
      CollectAgrees(es, EntryConverter(ColorFromAsWritten), EntryConverter(ColorFrom));
    }
  }

  /**
   * A file without colour settings projects alike under the as-written and
   * the corrected reader: the colour defect is the only difference.
   */
  lemma ToSimpleAgreesOffColours(s: Codec.Settings)
    requires SettingsHoldNoColour(s)
    ensures ToSimple(s, ColorFromAsWritten) == ToSimple(s, ColorFrom)
  {
    if s.properties.value.Dictionary? {
      var root := s.properties.value.entries;
      PropertyMapParseAgreesOffColours(root, STARTUP);
      PropertyMapParseAgreesOffColours(root, RUNTIME_GLOBAL);
      PropertyMapParseAgreesOffColours(root, RUNTIME_PER_USER);
    }
  }
}
