/**
 * What the projector promises: how each kind of value is rendered, how byte
 * blobs are detected and formatted, and that the weak-names path only ever
 * renames keys — it never drops, adds or reshapes data.
 */
module ConversionLemmas {
  import W = Wrappers
  import D = Decimal
  import J = Json
  import opened Candid
  import opened Conversion
  import T = Types

  // ---------------------------------------------------------------------------
  // Untyped path

  /** An option is a zero- or one-element array. */
  lemma UntypedOptions(x: IDLValue, opts: Idl2JsonOptions, d: Display)
    ensures Idl2Json(Opt(x), opts, d) == J.Array([Idl2Json(x, opts, d)])
    ensures Idl2Json(IDLValue.None, opts, d) == J.Array([])
  {
  }

  predicate IsWideInteger(v: IDLValue) {
    v.Int? || v.Nat? || v.Nat64? || v.Int64?
  }

  predicate IsNarrowInteger(v: IDLValue) {
    v.Nat8? || v.Nat16? || v.Nat32? || v.Int8? || v.Int16? || v.Int32?
  }

  /** The integer an integer-valued Candid value carries. */
  function IntegerValue(v: IDLValue): int
    requires IsWideInteger(v) || IsNarrowInteger(v)
  {
    match v
    case Int(i) => i
    case Nat(n) => n
    case Nat64(n) => n
    case Int64(i) => i
    case Nat8(n) => n
    case Nat16(n) => n
    case Nat32(n) => n
    case Int8(i) => i
    case Int16(i) => i
    case Int32(i) => i
  }

  /**
   * Integers that may not fit a double become JSON strings holding their
   * decimal form, which reads back as exactly the same integer.
   */
  lemma WideIntegersAsDecimalStrings(v: IDLValue, opts: Idl2JsonOptions, d: Display)
    requires IsWideInteger(v)
    ensures Idl2Json(v, opts, d).String?
    ensures D.ParseInt(Idl2Json(v, opts, d).s) == W.Some(IntegerValue(v))
  {
    D.IntToStringRoundTrip(IntegerValue(v));
  }

  /** Integers of at most 32 bits become JSON numbers. */
  lemma NarrowIntegersAsNumbers(v: IDLValue, opts: Idl2JsonOptions, d: Display)
    requires IsNarrowInteger(v)
    ensures Idl2Json(v, opts, d) == J.Number(J.Int(IntegerValue(v)))
  {
  }

  /** An unspecified number keeps its literal text; a float is a number iff it is finite. */
  lemma NumberTextAndFloats(s: string, f: bv64, g: bv32, opts: Idl2JsonOptions, d: Display)
    ensures Idl2Json(Number(s), opts, d) == J.String(s)
    ensures Idl2Json(IDLValue.Float64(f), opts, d) == (if IsFinite64(f) then J.Number(J.F64(f)) else J.String("NaN"))
    ensures Idl2Json(IDLValue.Float32(g), opts, d) == (if IsFinite32(g) then J.Number(J.F32(g)) else J.String("NaN"))
  {
  }

  /** A record is one pair per field, in field order; a variant is one pair. */
  lemma UntypedRecordsAndVariants(fs: seq<IDLField>, f: IDLField, index: T.u64, opts: Idl2JsonOptions, d: Display)
    ensures Idl2Json(Record(fs), opts, d).Object?
    ensures |Idl2Json(Record(fs), opts, d).members| == |fs|
    ensures forall i :: 0 <= i < |fs| ==>
      Idl2Json(Record(fs), opts, d).members[i] == (d.labelText(fs[i].id), Idl2Json(fs[i].val, opts, d))
    ensures Idl2Json(Variant(f, index), opts, d) == J.Object([(d.labelText(f.id), Idl2Json(f.val, opts, d))])
  {
  }

  /** A function reference has exactly the keys `principal` and `code`. */
  lemma UntypedFunc(p: T.Principal, m: string, opts: Idl2JsonOptions, d: Display)
    ensures Idl2Json(Func(p, m), opts, d) == J.Object([("principal", J.String(p.text)), ("code", J.String(m))])
  {
  }

  /** A vector is rendered as a blob when every element is a byte, element-wise otherwise. */
  lemma UntypedVec(xs: seq<IDLValue>, opts: Idl2JsonOptions, d: Display)
    ensures AllNat8(xs) ==> Idl2Json(Vec(xs), opts, d) == ConvertBytes(xs, opts).value
    ensures !AllNat8(xs) ==> Idl2Json(Vec(xs), opts, d) == ConvertNonBytesArray(xs, opts, d)
  {
  }

  // ---------------------------------------------------------------------------
  // Byte blobs

  /** Options under which no blob is ever rendered as hex. */
  predicate NumbersOnly(opts: Idl2JsonOptions) {
    && opts.bytesAs != W.Some(Hex)
    && (opts.longBytesAs.Some? ==> opts.longBytesAs.value.1 == Numbers)
  }

  /** Without hex, the blob rendering and the element-wise rendering agree. */
  lemma NumbersBlobIsElementwise(xs: seq<IDLValue>, opts: Idl2JsonOptions, d: Display)
    requires NumbersOnly(opts)
    ensures Idl2Json(Vec(xs), opts, d) == ConvertNonBytesArray(xs, opts, d)
  {
    if AllNat8(xs) {
      var blob := Idl2Json(Vec(xs), opts, d);
      var each := ConvertNonBytesArray(xs, opts, d);
      assert blob == FormatBytes(xs, Numbers).value;
      assert blob.items == each.items by {
        forall i | 0 <= i < |xs|
          ensures blob.items[i] == each.items[i]
        {
          assert each.items[i] == Idl2Json(xs[i], opts, d);
        }
      }
    }
  }

  /** The format a blob of this length gets: `long_bytes_as` past its threshold, else `bytes_as`. */
  function ChosenFormat(xs: seq<IDLValue>, opts: Idl2JsonOptions): BytesFormat {
    if opts.longBytesAs.Some? && |xs| >= opts.longBytesAs.value.0 then opts.longBytesAs.value.1
    else opts.bytesAs.GetOr(Numbers)
  }

  /**
   * A blob is rendered as a string exactly when the format chosen for it is
   * hex, whether through `bytes_as` or `long_bytes_as`, and that string
   * decodes back to exactly its bytes.
   */
  lemma HexBlobDecodes(xs: seq<IDLValue>, opts: Idl2JsonOptions, d: Display)
    requires AllNat8(xs)
    ensures Idl2Json(Vec(xs), opts, d).String? <==> ChosenFormat(xs, opts) == Hex
    ensures Idl2Json(Vec(xs), opts, d).String? ==>
      HexDecode(Idl2Json(Vec(xs), opts, d).s) == W.Some(ByteValues(xs))
  {
    var f := ChosenFormat(xs, opts);
    assert Idl2Json(Vec(xs), opts, d) == FormatBytes(xs, f).value;
    if f == Hex {
      assert Idl2Json(Vec(xs), opts, d) == J.String(HexString(ByteValues(xs)));
      HexRoundTrip(ByteValues(xs));
    }
  }

  /** Distinct blobs have distinct hex renderings. */
  lemma HexBlobsInjective(xs: seq<IDLValue>, ys: seq<IDLValue>)
    requires FormatBytes(xs, Hex).Ok? && FormatBytes(ys, Hex).Ok?
    requires FormatBytes(xs, Hex) == FormatBytes(ys, Hex)
    ensures ByteValues(xs) == ByteValues(ys)
  {
    HexStringInjective(ByteValues(xs), ByteValues(ys));
  }

  // ---------------------------------------------------------------------------
  // Weak names: resolution and fallback

  /** An unknown type name gives the untyped rendering. */
  lemma WeakNamesUnresolved(v: IDLValue, name: string, opts: Idl2JsonOptions, d: Display)
    requires AcyclicAliases(opts.prog) && GetTypeFromAny(opts.prog, name).None?
    ensures Idl2JsonWithWeakNames(v, VarT(name), opts, d) == Idl2Json(v, opts, d)
  {
  }

  /** A known type name is replaced by the type it names. */
  lemma WeakNamesFollowsAlias(v: IDLValue, name: string, resolved: IDLType, opts: Idl2JsonOptions, d: Display)
    requires AcyclicAliases(opts.prog) && GetTypeFromAny(opts.prog, name) == W.Some(resolved)
    ensures Idl2JsonWithWeakNames(v, VarT(name), opts, d) == Idl2JsonWithWeakNames(v, resolved, opts, d)
  {
  }

  /** The type constructor a container value needs for the schema to apply. */
  predicate ShapeFits(v: IDLValue, t: IDLType) {
    && (v.Opt? ==> t.OptT?)
    && (v.Vec? ==> t.VecT?)
    && (v.Record? ==> t.RecordT?)
    && (v.Variant? ==> t.VariantT?)
  }

  /** A container paired with a type of another shape gives the untyped rendering. */
  lemma WeakNamesMismatch(v: IDLValue, t: IDLType, opts: Idl2JsonOptions, d: Display)
    requires AcyclicAliases(opts.prog) && !t.VarT? && !ShapeFits(v, t)
    ensures Idl2JsonWithWeakNames(v, t, opts, d) == Idl2Json(v, opts, d)
  {
  }

  /** A value holding no other value is rendered the same whatever its type, through any aliases. */
  lemma {:induction false} WeakNamesScalar(v: IDLValue, t: IDLType, opts: Idl2JsonOptions, d: Display)
    requires AcyclicAliases(opts.prog) && !IsContainer(v)
    ensures Idl2JsonWithWeakNames(v, t, opts, d) == Idl2Json(v, opts, d)
    decreases TypeDepth(opts.prog, t)
  {
    if t.VarT? {
      match GetTypeFromAny(opts.prog, t.name) {
        case None =>
        case Some(resolved) =>
          AliasStep(opts.prog, t.name, resolved);
          WeakNamesScalar(v, resolved, opts, d);
      }
    }
  }

  // ---------------------------------------------------------------------------
  // Weak names: typed containers

  /** A `vec nat8` type takes exactly the untyped byte path. */
  lemma WeakNamesBlob(xs: seq<IDLValue>, opts: Idl2JsonOptions, d: Display)
    requires AcyclicAliases(opts.prog)
    ensures Idl2JsonWithWeakNames(Vec(xs), VecT(PrimT(PrimType.Nat8)), opts, d) == Idl2Json(Vec(xs), opts, d)
  {
  }

  /** Any other item type converts element by element with that type, bytes or not. */
  lemma WeakNamesTypedItems(xs: seq<IDLValue>, item: IDLType, opts: Idl2JsonOptions, d: Display)
    requires AcyclicAliases(opts.prog) && item != PrimT(PrimType.Nat8)
    ensures Idl2JsonWithWeakNames(Vec(xs), VecT(item), opts, d).Array?
    ensures |Idl2JsonWithWeakNames(Vec(xs), VecT(item), opts, d).items| == |xs|
    ensures forall i :: 0 <= i < |xs| ==>
      Idl2JsonWithWeakNames(Vec(xs), VecT(item), opts, d).items[i] == Idl2JsonWithWeakNames(xs[i], item, opts, d)
  {
  }

  /** A typed record or variant gets one converted pair per data field, in data order. */
  lemma WeakNamesFields(fs: seq<IDLField>, f: IDLField, index: T.u64, tfs: seq<TypeField>, opts: Idl2JsonOptions, d: Display)
    requires AcyclicAliases(opts.prog)
    ensures Idl2JsonWithWeakNames(Record(fs), RecordT(tfs), opts, d).Object?
    ensures |Idl2JsonWithWeakNames(Record(fs), RecordT(tfs), opts, d).members| == |fs|
    ensures forall i :: 0 <= i < |fs| ==>
      Idl2JsonWithWeakNames(Record(fs), RecordT(tfs), opts, d).members[i] == ConvertIdlField(fs[i], tfs, opts, d)
    ensures Idl2JsonWithWeakNames(Variant(f, index), VariantT(tfs), opts, d) == J.Object([ConvertIdlField(f, tfs, opts, d)])
  {
  }

  /** A field with a type field of the same id takes the first such type field's name and type. */
  lemma ConvertIdlFieldTyped(f: IDLField, tfs: seq<TypeField>, j: nat, opts: Idl2JsonOptions, d: Display)
    requires AcyclicAliases(opts.prog)
    requires j < |tfs| && LabelId(tfs[j].fieldLabel) == LabelId(f.id)
    requires forall k :: 0 <= k < j ==> LabelId(tfs[k].fieldLabel) != LabelId(f.id)
    ensures ConvertIdlField(f, tfs, opts, d) == (d.labelText(tfs[j].fieldLabel), Idl2JsonWithWeakNames(f.val, tfs[j].typ, opts, d))
  {
    var found := FindTypeField(tfs, LabelId(f.id));
    assert found.Some?;
    assert !(found.value < j) && !(j < found.value);
  }

  /** A field the type does not know keeps its own label and is converted untyped. */
  lemma ConvertIdlFieldUntyped(f: IDLField, tfs: seq<TypeField>, opts: Idl2JsonOptions, d: Display)
    requires AcyclicAliases(opts.prog)
    requires forall k :: 0 <= k < |tfs| ==> LabelId(tfs[k].fieldLabel) != LabelId(f.id)
    ensures ConvertIdlField(f, tfs, opts, d) == (d.labelText(f.id), Idl2Json(f.val, opts, d))
  {
  }

  /**
   * Data always wins over the schema: apart from object keys, the weak-names
   * rendering is the untyped one. (With hex blobs enabled the two can differ
   * in how a blob is spelled; see AliasedByteItemsStayNumbers.)
   */
  lemma {:induction false} WeakNamesPreservesData(v: IDLValue, t: IDLType, opts: Idl2JsonOptions, d: Display)
    requires AcyclicAliases(opts.prog) && NumbersOnly(opts)
    ensures J.Skeleton(Idl2JsonWithWeakNames(v, t, opts, d)) == J.Skeleton(Idl2Json(v, opts, d))
    decreases v, 1, TypeDepth(opts.prog, t)
  {
    if t.VarT? {
      match GetTypeFromAny(opts.prog, t.name) {
        case None =>
        case Some(resolved) =>
          AliasStep(opts.prog, t.name, resolved);
          WeakNamesPreservesData(v, resolved, opts, d);
      }
    } else {
      ShapePreservesData(v, t, opts, d);
    }
  }

  lemma {:induction false} ShapePreservesData(v: IDLValue, t: IDLType, opts: Idl2JsonOptions, d: Display)
    requires AcyclicAliases(opts.prog) && NumbersOnly(opts) && !t.VarT?
    ensures J.Skeleton(WeakNamesByShape(v, t, opts, d)) == J.Skeleton(Idl2Json(v, opts, d))
    decreases v, 0, 0
  {
    if !IsContainer(v) {
      assert WeakNamesByShape(v, t, opts, d) == ScalarToJson(v, d);
    } else if !ShapeFits(v, t) {
      WeakNamesMismatch(v, t, opts, d);
    } else if v.Opt? {
      WeakNamesPreservesData(v.inner, t.optType, opts, d);
    } else if v.Vec? {
      if t.itemType != PrimT(PrimType.Nat8) {
        ItemsPreserveData(v.items, t.itemType, opts, d);
      }
    } else if v.Record? {
      FieldsPreserveData(v.fields, t.recordFields, opts, d);
    } else {
      FieldPreservesData(v.field, t.variantFields, opts, d);
      assert J.Skeleton(WeakNamesByShape(v, t, opts, d)).members == J.Skeleton(Idl2Json(v, opts, d)).members;
    }
  }

  lemma {:induction false} ItemsPreserveData(xs: seq<IDLValue>, item: IDLType, opts: Idl2JsonOptions, d: Display)
    requires AcyclicAliases(opts.prog) && NumbersOnly(opts) && item != PrimT(PrimType.Nat8)
    ensures J.Skeleton(WeakNamesByShape(Vec(xs), VecT(item), opts, d)) == J.Skeleton(Idl2Json(Vec(xs), opts, d))
    decreases xs
  {
    NumbersBlobIsElementwise(xs, opts, d);
    var typed := WeakNamesByShape(Vec(xs), VecT(item), opts, d).items;
    var untyped := Idl2Json(Vec(xs), opts, d).items;
    forall i | 0 <= i < |xs|
      ensures J.Skeleton(typed[i]) == J.Skeleton(untyped[i])
    {
      WeakNamesPreservesData(xs[i], item, opts, d);
    }
    assert J.Skeleton(J.Array(typed)).items == J.Skeleton(J.Array(untyped)).items;
  }

  lemma {:induction false} FieldsPreserveData(fs: seq<IDLField>, tfs: seq<TypeField>, opts: Idl2JsonOptions, d: Display)
    requires AcyclicAliases(opts.prog) && NumbersOnly(opts)
    ensures J.Skeleton(WeakNamesByShape(Record(fs), RecordT(tfs), opts, d)) == J.Skeleton(Idl2Json(Record(fs), opts, d))
    decreases fs
  {
    var typed := WeakNamesByShape(Record(fs), RecordT(tfs), opts, d).members;
    var untyped := Idl2Json(Record(fs), opts, d).members;
    forall i | 0 <= i < |fs|
      ensures J.Skeleton(typed[i].1) == J.Skeleton(untyped[i].1)
    {
      FieldPreservesData(fs[i], tfs, opts, d);
    }
    assert J.Skeleton(J.Object(typed)).members == J.Skeleton(J.Object(untyped)).members;
  }

  lemma {:induction false} FieldPreservesData(f: IDLField, tfs: seq<TypeField>, opts: Idl2JsonOptions, d: Display)
    requires AcyclicAliases(opts.prog) && NumbersOnly(opts)
    ensures J.Skeleton(ConvertIdlField(f, tfs, opts, d).1) == J.Skeleton(Idl2Json(f.val, opts, d))
    decreases f
  {
    match FindTypeField(tfs, LabelId(f.id)) {
      case Some(j) => WeakNamesPreservesData(f.val, tfs[j].typ, opts, d);
      case None =>
    }
  }

  // ---------------------------------------------------------------------------
  // Worked examples

  const DefaultOptions := Idl2JsonOptions(W.None, W.None, [], false)
  const HexOptions := Idl2JsonOptions(W.Some(Hex), W.None, [], false)

  /** `true` without a schema is JSON `true`. */
  lemma ScenarioBool(d: Display)
    ensures Idl2Json(IDLValue.Bool(true), DefaultOptions, d) == J.Bool(true)
  {
  }

  /** The blob [0x0A, 0xFF] is [10,255] by default. */
  lemma ScenarioBytesDefault(d: Display)
    ensures Idl2Json(Vec([IDLValue.Nat8(0x0A), IDLValue.Nat8(0xFF)]), DefaultOptions, d)
         == J.Array([J.Number(J.Int(10)), J.Number(J.Int(255))])
  {
    var xs := [IDLValue.Nat8(0x0A), IDLValue.Nat8(0xFF)];
    assert AllNat8(xs);
  }

  /** The blob [0x0A, 0xFF] is "0aff" as hex. */
  lemma ScenarioBytesHex(d: Display)
    ensures Idl2Json(Vec([IDLValue.Nat8(0x0A), IDLValue.Nat8(0xFF)]), HexOptions, d) == J.String("0aff")
  {
    var xs := [IDLValue.Nat8(0x0A), IDLValue.Nat8(0xFF)];
    assert AllNat8(xs);
    assert ByteValues(xs) == [10, 255];
    assert HexString([10, 255]) == HexString([10]) + ByteHex(255);
    assert HexString([10]) == HexString([]) + ByteHex(10);
    assert ByteHex(10) + ByteHex(255) == "0aff";
  }

  /** `idl_hash("name")`: the bytes n, a, m, e folded as h * 223 + b modulo 2^32. */
  lemma NameHash()
    ensures LabelId(Named("name")) == 1224700491
  {
    assert "name"[..3] == "nam" && "nam"[..2] == "na" && "na"[..1] == "n" && "n"[..0] == "";
    assert Utf8String("name") == [110, 97, 109, 101];
    var b: seq<T.u8> := [110, 97, 109, 101];
    assert b[..3] == [110, 97, 109] && b[..3][..2] == [110, 97] && b[..3][..2][..1] == [110];
    assert HashBytes([110]) == 110;
    assert HashBytes([110, 97]) == 24627;
    assert HashBytes([110, 97, 109]) == 5491930;
    assert HashBytes(b) == 1224700491;
  }

  /** A record field is keyed by its raw label untyped, and by the schema's name when the ids agree. */
  lemma ScenarioRecord(d: Display)
    ensures Idl2Json(Record([IDLField(Id(1), IDLValue.Text("x"))]), DefaultOptions, d)
         == J.Object([(d.labelText(Id(1)), J.String("x"))])
    ensures Idl2JsonWithWeakNames(
              Record([IDLField(Id(1), IDLValue.Text("x"))]),
              RecordT([TypeField(Named("name"), PrimT(PrimType.Text))]), DefaultOptions, d)
         == J.Object([(d.labelText(Id(1)), J.String("x"))])
    ensures Idl2JsonWithWeakNames(
              Record([IDLField(Id(LabelId(Named("name"))), IDLValue.Text("x"))]),
              RecordT([TypeField(Named("name"), PrimT(PrimType.Text))]), DefaultOptions, d)
         == J.Object([(d.labelText(Named("name")), J.String("x"))])
  {
    NameHash();
    assert AcyclicAliases(DefaultOptions.prog) by {
      forall name: string ensures AliasChainEnds(DefaultOptions.prog, VarT(name), DecCount(DefaultOptions.prog)) {
      }
    }
  }

  /** A program declaring `type byte = nat8;`. */
  const ByteAlias := IDLProg([TypD(Binding("byte", PrimT(PrimType.Nat8)))], W.None)
  const HexWithByteAlias := Idl2JsonOptions(W.Some(Hex), W.None, [ByteAlias], false)

  lemma ByteAliasResolves()
    ensures AcyclicAliases(HexWithByteAlias.prog)
    ensures GetTypeFromAny(HexWithByteAlias.prog, "byte") == W.Some(PrimT(PrimType.Nat8))
  {
    assert DecCount(HexWithByteAlias.prog) == 1;
    forall name: string
      ensures AliasChainEnds(HexWithByteAlias.prog, VarT(name), 1)
    {
      if name == "byte" {
        assert FirstDeclaration(ByteAlias.decs, name) == W.Some(0);
      } else {
        assert !DeclaresType(ByteAlias.decs[0], name);
      }
    }
    assert FirstDeclaration(ByteAlias.decs, "byte") == W.Some(0);
  }

  /**
   * A vector whose item type only names `nat8` through an alias converts
   * element-wise, so a blob stays an array of numbers even with hex enabled,
   * while the untyped path spells it as hex.
   */
  lemma AliasedByteItemsStayNumbers(d: Display)
    ensures AcyclicAliases(HexWithByteAlias.prog)
    ensures Idl2JsonWithWeakNames(Vec([IDLValue.Nat8(10)]), VecT(VarT("byte")), HexWithByteAlias, d)
         == J.Array([J.Number(J.Int(10))])
    ensures Idl2Json(Vec([IDLValue.Nat8(10)]), HexWithByteAlias, d) == J.String("0a")
  {
    ByteAliasResolves();
    var xs := [IDLValue.Nat8(10)];
    WeakNamesTypedItems(xs, VarT("byte"), HexWithByteAlias, d);
    WeakNamesScalar(IDLValue.Nat8(10), VarT("byte"), HexWithByteAlias, d);
    UntypedSingleByteAsHex(d);
  }

  lemma UntypedSingleByteAsHex(d: Display)
    ensures Idl2Json(Vec([IDLValue.Nat8(10)]), HexWithByteAlias, d) == J.String("0a")
  {
    var xs := [IDLValue.Nat8(10)];
    assert AllNat8(xs);
    assert ByteValues(xs) == [10];
    assert HexString([10]) == HexString([]) + ByteHex(10);
  }
}
