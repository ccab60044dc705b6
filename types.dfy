/** The game version stamped in the file header, with its total order. */
module Types {
  import opened Wrappers
  import opened Bytes

  /** `std::cmp::Ordering`. */
  datatype Ordering = Less | Equal | Greater {
    function Reverse(): Ordering {
      match this
      case Less => Greater
      case Equal => Equal
      case Greater => Less
    }
  }

  /** `u16::cmp`. */
  function CmpU16(a: U16, b: U16): Ordering {
    if a < b then Less else if a == b then Equal else Greater
  }

  datatype FactorioVersion = FactorioVersion(major: U16, minor: U16, patch: U16, build: U16)

  /** `Ord::cmp`: major, then minor, then patch, then build; the first difference decides. */
  function Cmp(a: FactorioVersion, b: FactorioVersion): Ordering {
    match CmpU16(a.major, b.major)
    case Equal =>
      (match CmpU16(a.minor, b.minor)
       case Equal =>
         (match CmpU16(a.patch, b.patch)
          case Equal => CmpU16(a.build, b.build)
          case other => other)
       case other => other)
    case other => other
  }

  /** `PartialOrd::partial_cmp`: the order is total, so there is always an answer, and it is `cmp`'s. */
  function PartialCmp(a: FactorioVersion, b: FactorioVersion): (r: Option<Ordering>)
    ensures r.Some? && r.value == Cmp(a, b)
  {
    Some(Cmp(a, b))
  }

  /** A reference for the order: the four fields read as one 64-bit number, major most significant. */
  function Rank(v: FactorioVersion): nat {
    v.major * 0x1_0000_0000_0000 + v.minor * 0x1_0000_0000 + v.patch * 0x1_0000 + v.build
  }

  function CmpInt(x: int, y: int): Ordering {
    if x < y then Less else if x == y then Equal else Greater
  }

  /** `cmp` orders versions exactly as their ranks are ordered. */
  lemma CmpIsRankOrder(a: FactorioVersion, b: FactorioVersion)
    ensures Cmp(a, b) == CmpInt(Rank(a), Rank(b))
  {
    var lowA := a.minor * 0x1_0000_0000 + a.patch * 0x1_0000 + a.build;
    var lowB := b.minor * 0x1_0000_0000 + b.patch * 0x1_0000 + b.build;
    assert lowA < 0x1_0000_0000_0000 && lowB < 0x1_0000_0000_0000;
    if a.major == b.major {
      var restA := a.patch * 0x1_0000 + a.build;
      var restB := b.patch * 0x1_0000 + b.build;
      assert restA < 0x1_0000_0000 && restB < 0x1_0000_0000;
    }
  }

  /** `cmp` says Equal exactly when the versions are equal, as the derived `Eq` does. */
  lemma CmpEqualIffSame(a: FactorioVersion, b: FactorioVersion)
    ensures Cmp(a, b) == Equal <==> a == b
  {
    CmpIsRankOrder(a, b);
    if Rank(a) == Rank(b) {
      RankIsInjective(a, b);
    }
  }

  lemma RankIsInjective(a: FactorioVersion, b: FactorioVersion)
    requires Rank(a) == Rank(b)
    ensures a == b
  {
    assert a.major == b.major by {
      if a.major < b.major { CmpIsRankOrder(a, b); }
      if b.major < a.major { CmpIsRankOrder(a, b); }
    }
  }

  /** Swapping the operands reverses the answer. */
  lemma CmpAntisymmetric(a: FactorioVersion, b: FactorioVersion)
    ensures Cmp(a, b) == Cmp(b, a).Reverse()
  {
    CmpIsRankOrder(a, b);
    CmpIsRankOrder(b, a);
  }

  /** Less than is transitive. */
  lemma CmpTransitive(a: FactorioVersion, b: FactorioVersion, c: FactorioVersion)
    requires Cmp(a, b) == Less && Cmp(b, c) == Less
    ensures Cmp(a, c) == Less
  {
    CmpIsRankOrder(a, b);
    CmpIsRankOrder(b, c);
    CmpIsRankOrder(a, c);
  }

  /** Any two versions are comparable, and exactly one of the three answers holds. */
  lemma CmpTotal(a: FactorioVersion, b: FactorioVersion)
    ensures Cmp(a, b) == Less || Cmp(a, b) == Greater || a == b
  {
    CmpEqualIffSame(a, b);
  }
}
