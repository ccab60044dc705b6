/**
 * The codec as the source runs it: every decoder advances a reader over
 * the input and every encoder appends to a writer. Each method is proved to
 * agree with the function of the same name in module Codec, so the
 * properties proved there hold for these methods too.
 */
module Streams {
  import opened Wrappers
  import opened Bytes
  import opened Utf8
  import opened Types
  import Codec
  import OrderedMap

  type Error = Codec.DecodeError

  /** An input stream over an in-memory buffer (a `Read` implementation). */
  class Reader {
    const data: seq<Byte>
    var pos: nat

    ghost predicate Valid()
      reads this
    {
      pos <= |data|
    }

    /** The bytes not read yet. */
    function Remaining(): seq<Byte>
      reads this
      requires Valid()
    {
      data[pos..]
    }

    /**
     * A read ended as the specification says: with its value and the
     * stream positioned at the rest, or with its error. After an error the
     * position is left unspecified, as it is for a failed `Read`.
     */
    ghost predicate Yields<T>(res: Result<T, Error>, spec: Codec.Parse<T>)
      reads this
      requires Valid()
    {
      match spec
      case Ok(d) => res == Ok(d.value) && Remaining() == d.rest
      case Err(e) => res == Err(e)
    }

    constructor (input: seq<Byte>)
      ensures data == input && pos == 0
      ensures Valid() && Remaining() == input
    {
      data := input;
      pos := 0;
    }

    /** `read_u8`. */
    method ReadU8() returns (res: Result<Byte, Error>)
      requires Valid()
      modifies this
      ensures Valid() && Yields(res, Codec.ReadU8(old(Remaining())))
    {
      if pos + 1 > |data| {
        return Err(Codec.Truncated);
      }
      res := Ok(data[pos]);
      pos := pos + 1;
    }

    /** `read_exact` into a buffer of n bytes. */
    method ReadExact(n: nat) returns (res: Result<seq<Byte>, Error>)
      requires Valid()
      modifies this
      ensures Valid() && Yields(res, Codec.ReadExact(old(Remaining()), n))
    {
      if pos + n > |data| {
        return Err(Codec.Truncated);
      }
      res := Ok(data[pos..pos + n]);
      assert data[pos..][..n] == data[pos..pos + n] && data[pos..][n..] == data[pos + n..];
      pos := pos + n;
    }

    /** `read_u32::<LE>`. */
    method ReadU32() returns (res: Result<U32, Error>)
      requires Valid()
      modifies this
      ensures Valid() && Yields(res, Codec.ReadU32(old(Remaining())))
    {
      var bytes :- ReadExact(4);
      Pow256Widths();
      return Ok(FromLittleEndian(bytes));
    }

    /** `read_u64::<LE>`, which also stands for `read_f64` and `read_i64`. */
    method ReadU64() returns (res: Result<U64, Error>)
      requires Valid()
      modifies this
      ensures Valid() && Yields(res, Codec.ReadU64(old(Remaining())))
    {
      var bytes :- ReadExact(8);
      Pow256Widths();
      return Ok(FromLittleEndian(bytes));
    }
  }

  /** An output stream that collects what is written (a `Write` into a `Vec`). */
  class Writer {
    var bytes: seq<Byte>

    constructor ()
      ensures bytes == []
    {
      bytes := [];
    }

    method WriteU8(b: Byte)
      modifies this
      ensures bytes == old(bytes) + [b]
    {
      bytes := bytes + [b];
    }

    method WriteAll(bs: seq<Byte>)
      modifies this
      ensures bytes == old(bytes) + bs
    {
      bytes := bytes + bs;
    }

    method WriteU16(v: U16)
      modifies this
      ensures bytes == old(bytes) + U16Bytes(v)
    {
      bytes := bytes + U16Bytes(v);
    }

    method WriteU32(v: U32)
      modifies this
      ensures bytes == old(bytes) + U32Bytes(v)
    {
      bytes := bytes + U32Bytes(v);
    }

    /** `write_u64::<LE>`, which also stands for `write_f64` and `write_i64`. */
    method WriteU64(v: U64)
      modifies this
      ensures bytes == old(bytes) + U64Bytes(v)
    {
      bytes := bytes + U64Bytes(v);
    }
  }

  // ---------------------------------------------------------------------
  // Decoding

  method DecodeBool(r: Reader) returns (res: Result<bool, Error>)
    requires r.Valid()
    modifies r
    ensures r.Valid() && r.Yields(res, Codec.DecodeBool(old(r.Remaining())))
  {
    var byte :- r.ReadU8();
    return Ok(Codec.LooseBool(byte));
  }

  method DecodeDouble(r: Reader) returns (res: Result<Codec.F64, Error>)
    requires r.Valid()
    modifies r
    ensures r.Valid() && r.Yields(res, Codec.DecodeDouble(old(r.Remaining())))
  {
    res := r.ReadU64();
  }

  method DecodeInteger(r: Reader) returns (res: Result<I64, Error>)
    requires r.Valid()
    modifies r
    ensures r.Valid() && r.Yields(res, Codec.DecodeInteger(old(r.Remaining())))
  {
    var bits :- r.ReadU64();
    return Ok(I64FromBits(bits));
  }

  method ReadOptimizedU32(r: Reader) returns (res: Result<U32, Error>)
    requires r.Valid()
    modifies r
    ensures r.Valid() && r.Yields(res, Codec.ReadOptimizedU32(old(r.Remaining())))
  {
    var first :- r.ReadU8();
    if first == 0xFF {
      res := r.ReadU32();
    } else {
      res := Ok(first);
    }
  }

  method DecodeString(r: Reader) returns (res: Result<Str, Error>)
    requires r.Valid()
    modifies r
    ensures r.Valid() && r.Yields(res, Codec.DecodeString(old(r.Remaining())))
  {
    var empty :- r.ReadU8();
    if !Codec.LooseBool(empty) {
      var length :- ReadOptimizedU32(r);
      var bytes :- r.ReadExact(length);
      if IsWellFormed(bytes) {
        return Ok(bytes);
      } else {
        return Err(Codec.InvalidUtf8);
      }
    } else {
      return Ok([]);
    }
  }

  /** The two header bytes, then the payload that the tag byte selects. */
  method DecodeProperty(r: Reader) returns (res: Result<Codec.Property, Error>)
    requires r.Valid()
    modifies r
    ensures r.Valid() && r.Yields(res, Codec.DecodeProperty(old(r.Remaining())))
    decreases |r.data| - r.pos, 4
  {
    var header :- r.ReadExact(2);
    var vtype, anyFlag := header[0], header[1];
    var value :- DecodeValue(r, vtype);
    return Ok(Codec.Property(Codec.LooseBool(anyFlag), value));
  }

  method DecodeValue(r: Reader, vtype: Byte) returns (res: Result<Codec.PropertyValue, Error>)
    requires r.Valid()
    modifies r
    ensures r.Valid() && r.Yields(res, Codec.DecodeValue(vtype, old(r.Remaining())))
    decreases |r.data| - r.pos, 3
  {
    if vtype == Codec.TYPE_NONE {
      return Ok(Codec.PropertyValue.None);
    } else if vtype == Codec.TYPE_BOOL {
      var b :- DecodeBool(r);
      return Ok(Codec.Bool(b));
    } else if vtype == Codec.TYPE_DOUBLE {
      var d :- DecodeDouble(r);
      return Ok(Codec.Double(d));
    } else if vtype == Codec.TYPE_STRING {
      var s :- DecodeString(r);
      return Ok(Codec.String(s));
    } else if vtype == Codec.TYPE_LIST {
      return Err(Codec.UnimplementedVariant);
    } else if vtype == Codec.TYPE_DICTIONARY {
      var es :- DecodeDictionary(r);
      return Ok(Codec.Dictionary(es));
    } else if vtype == Codec.TYPE_INTEGER {
      var i :- DecodeInteger(r);
      return Ok(Codec.Integer(i));
    } else {
      return Err(Codec.UnknownTypeTag(vtype));
    }
  }

  /** The count, then a `for _ in 0..count` loop inserting each pair into the map. */
  method DecodeDictionary(r: Reader) returns (res: Result<seq<(Str, Codec.Property)>, Error>)
    requires r.Valid()
    modifies r
    ensures r.Valid() && r.Yields(res, Codec.DecodeDictionary(old(r.Remaining())))
    decreases |r.data| - r.pos, 2
  {
    ghost var spec := Codec.DecodeDictionary(r.Remaining());
    UnfoldDictionary(r.Remaining());
    ghost var input := r.Remaining();
    var count := r.ReadU32();
    if count.Err? {
      return Err(count.error);
    }
    assert Codec.ReadU32(input) == Ok(Codec.Decoded(count.value, r.Remaining()));
    res := DecodeEntries(r, count.value, spec);
  }

  /**
   * The loop of the dictionary decoder, `count` turns (counted down here),
   * producing what spec says the count pairs produce.
   */
  method DecodeEntries(r: Reader, count: U32, ghost spec: Codec.Parse<seq<(Str, Codec.Property)>>)
    returns (res: Result<seq<(Str, Codec.Property)>, Error>)
    requires r.Valid()
    requires Codec.DecodeEntries(r.Remaining(), count, []) == spec
    modifies r
    ensures r.Valid() && r.Yields(res, spec)
    decreases |r.data| - r.pos, 1
  {
    var entries: seq<(Str, Codec.Property)> := [];
    var left := count;
    while left > 0
      invariant r.Valid() && r.pos >= old(r.pos)
      invariant Codec.DecodeEntries(r.Remaining(), left, entries) == spec
    {
      var next, more := DecodeEntry(r, left, entries, spec);
      if !next.Ok? {
        return Err(next.error);
      }
      entries, left := next.value, more;
    }
    EntriesDone(r.Remaining(), entries);
    return Ok(entries);
  }

  /**
   * One turn of the dictionary loop: a key, then its node, inserted into the
   * map. Whatever the loop still has to produce (spec) is what the remaining
   * turns produce after this one.
   */
  method DecodeEntry(r: Reader, left: U32, acc: seq<(Str, Codec.Property)>, ghost spec: Codec.Parse<seq<(Str, Codec.Property)>>)
    returns (res: Result<seq<(Str, Codec.Property)>, Error>, more: U32)
    requires r.Valid() && left > 0
    requires Codec.DecodeEntries(r.Remaining(), left, acc) == spec
    modifies r
    ensures r.Valid() && more == left - 1
    ensures res.Err? ==> spec == Err(res.error)
    ensures res.Ok? ==> r.pos > old(r.pos) && Codec.DecodeEntries(r.Remaining(), more, res.value) == spec
    decreases |r.data| - r.pos, 0
  {
    more := left - 1;
    UnfoldEntries(r.Remaining(), left, acc);
    var name :- DecodeString(r);
    var value :- DecodeProperty(r);
    res := Ok(OrderedMap.Insert(acc, name, value));
    CountDown(r.Remaining(), more, res.value);
  }

  /**
   * The specification recurses on `n - 1`; the loop holds that number in a
   * variable of its own.
   */
  lemma CountDown(b: seq<Byte>, more: nat, acc: seq<(Str, Codec.Property)>)
    ensures forall k: nat :: k == more ==> Codec.DecodeEntries(b, k, acc) == Codec.DecodeEntries(b, more, acc)
  {
  }

  lemma EntriesDone(b: seq<Byte>, acc: seq<(Str, Codec.Property)>)
    ensures Codec.DecodeEntries(b, 0, acc) == Ok(Codec.Decoded(acc, b))
  {
  }

  lemma UnfoldDictionary(b: seq<Byte>)
    ensures Codec.DecodeDictionary(b) ==
      match Codec.ReadU32(b)
      case Err(e) => Err(e)
      case Ok(count) => Codec.DecodeEntries(count.rest, count.value, [])
  {
  }

  /** One turn of the dictionary loop as the specification states it. */
  lemma UnfoldEntries(b: seq<Byte>, n: nat, acc: seq<(Str, Codec.Property)>)
    requires n > 0
    ensures var key := Codec.DecodeString(b);
      Codec.DecodeEntries(b, n, acc) ==
        if !key.Ok? then Err(key.error)
        else
          var node := Codec.DecodeProperty(key.value.rest);
          if !node.Ok? then Err(node.error)
          else Codec.DecodeEntries(node.value.rest, n - 1, OrderedMap.Insert(acc, key.value.value, node.value.value))
  {
  }

  /** `read_u16_into` four little-endian words: major, minor, patch, build. */
  method DecodeVersion(r: Reader) returns (res: Result<FactorioVersion, Error>)
    requires r.Valid()
    modifies r
    ensures r.Valid() && r.Yields(res, Codec.DecodeVersion(old(r.Remaining())))
  {
    var w :- r.ReadExact(8);
    Pow256Widths();
    return Ok(FactorioVersion(FromLittleEndian(w[0..2]), FromLittleEndian(w[2..4]),
                              FromLittleEndian(w[4..6]), FromLittleEndian(w[6..8])));
  }

  /** The version, the reserved byte (which must be 0), then the root node. */
  method DecodeSettings(r: Reader) returns (res: Result<Codec.Settings, Error>)
    requires r.Valid()
    modifies r
    ensures r.Valid() && r.Yields(res, Codec.DecodeSettings(old(r.Remaining())))
  {
    var version :- DecodeVersion(r);
    var reserved :- r.ReadU8();
    if reserved != 0 {
      return Err(Codec.InvalidHeaderByte(reserved));
    }
    var root :- DecodeProperty(r);
    return Ok(Codec.Settings(version, root));
  }

  // ---------------------------------------------------------------------
  // Encoding

  method EncodeBool(w: Writer, b: bool)
    modifies w
    ensures w.bytes == old(w.bytes) + Codec.EncodeBool(b)
  {
    w.WriteU8(Codec.LooseBoolByte(b));
  }

  method EncodeDouble(w: Writer, d: Codec.F64)
    modifies w
    ensures w.bytes == old(w.bytes) + Codec.EncodeDouble(d)
  {
    w.WriteU64(d);
  }

  method EncodeInteger(w: Writer, i: I64)
    modifies w
    ensures w.bytes == old(w.bytes) + Codec.EncodeInteger(i)
  {
    w.WriteU64(I64Bits(i));
  }

  method WriteOptimizedU32(w: Writer, value: U32)
    modifies w
    ensures w.bytes == old(w.bytes) + Codec.WriteOptimizedU32(value)
  {
    if value < 0xFF {
      w.WriteU8(value);
    } else {
      w.WriteU8(0xFF);
      w.WriteU32(value);
    }
  }

  method EncodeString(w: Writer, s: Str)
    modifies w
    ensures w.bytes == old(w.bytes) + Codec.EncodeString(s)
  {
    ghost var before := w.bytes;
    w.WriteU8(0);
    WriteOptimizedU32(w, |s| % 0x1_0000_0000);
    w.WriteAll(s);
    Regroup(before, [0], Codec.WriteOptimizedU32(|s| % 0x1_0000_0000), s);
  }

  /** The tag byte, the flag byte, then the payload. */
  method EncodeProperty(w: Writer, p: Codec.Property)
    requires Codec.ListFree(p)
    modifies w
    ensures w.bytes == old(w.bytes) + Codec.EncodeProperty(p)
    decreases p
  {
    ghost var header := [Codec.Tag(p.value), Codec.LooseBoolByte(p.anyFlag)];
    w.WriteU8(Codec.Tag(p.value));
    w.WriteU8(Codec.LooseBoolByte(p.anyFlag));
    assert w.bytes == old(w.bytes) + header;
    assert Codec.ListFree(Codec.Property(false, p.value));
    ghost var mid := w.bytes;
    EncodeValue(w, p.value);
    assert Codec.EncodeProperty(p) == header + Codec.EncodeValue(p.value);
    Concat3(old(w.bytes), header, Codec.EncodeValue(p.value));
  }

  /** The payload its tag announces. */
  method EncodeValue(w: Writer, v: Codec.PropertyValue)
    requires Codec.ListFree(Codec.Property(false, v))
    modifies w
    ensures w.bytes == old(w.bytes) + Codec.EncodeValue(v)
    decreases v, 3
  {
    match v
    case None =>
    case Bool(b) => EncodeBool(w, b);
    case Double(d) => EncodeDouble(w, d);
    case String(s) => EncodeString(w, s);
    case Dictionary(es) => EncodeDictionary(w, es);
    case Integer(i) => EncodeInteger(w, i);
  }

  /** The count as u32, then each key and its node in the map's order. */
  method EncodeDictionary(w: Writer, es: seq<(Str, Codec.Property)>)
    requires forall i | 0 <= i < |es| :: Codec.ListFree(es[i].1)
    modifies w
    ensures w.bytes == old(w.bytes) + Codec.EncodeDictionary(es)
    decreases Codec.Dictionary(es), 2
  {
    w.WriteU32(|es| % 0x1_0000_0000);
    ghost var start := w.bytes;
    for i := 0 to |es|
      invariant w.bytes + Codec.EncodeEntries(es, i) == start + Codec.EncodeEntries(es, 0)
    {
      EncodeEntry(w, es, i);
    }
    assert Codec.EncodeEntries(es, |es|) == [];
    assert w.bytes == start + Codec.EncodeEntries(es, 0);
    Concat3(old(w.bytes), U32Bytes(|es| % 0x1_0000_0000), Codec.EncodeEntries(es, 0));
  }

  /** One turn of the dictionary encoder's loop: the key, then its node. */
  method EncodeEntry(w: Writer, es: seq<(Str, Codec.Property)>, i: nat)
    requires i < |es|
    requires forall j | 0 <= j < |es| :: Codec.ListFree(es[j].1)
    modifies w
    ensures w.bytes + Codec.EncodeEntries(es, i + 1) == old(w.bytes) + Codec.EncodeEntries(es, i)
    decreases Codec.Dictionary(es), 1
  {
    ghost var before := w.bytes;
    EncodeString(w, es[i].0);
    EncodeProperty(w, es[i].1);
    Regroup(before, Codec.EncodeString(es[i].0), Codec.EncodeProperty(es[i].1), Codec.EncodeEntries(es, i + 1));
  }

  method EncodeVersion(w: Writer, v: FactorioVersion)
    modifies w
    ensures w.bytes == old(w.bytes) + Codec.EncodeVersion(v)
  {
    w.WriteU16(v.major);
    w.WriteU16(v.minor);
    w.WriteU16(v.patch);
    w.WriteU16(v.build);
  }

  /** The version, the reserved byte 0, then the root node. */
  method EncodeSettings(w: Writer, s: Codec.Settings)
    requires Codec.ListFree(s.properties)
    modifies w
    ensures w.bytes == old(w.bytes) + Codec.EncodeSettings(s)
  {
    EncodeVersion(w, s.version);
    w.WriteU8(0);
    EncodeProperty(w, s.properties);
  }
}
