/**
 * The Candid-value to JSON projector of `src/lib/conversion.rs`: the untyped
 * path (`idl2json`), the byte-blob renderer (`convert_bytes`, `format_bytes`,
 * `nybble2hex`) and the schema-directed "weak names" path
 * (`idl2json_with_weak_names`), which walks a value and a type together and
 * falls back to the untyped path whenever the two disagree.
 */
module Conversion {
  import W = Wrappers
  import T = Types
  import D = Decimal
  import J = Json
  import opened Candid

  /** How to render a `vec nat8`. */
  datatype BytesFormat = Numbers | Hex

  /** `Idl2JsonOptions`. */
  datatype Idl2JsonOptions = Idl2JsonOptions(
    /** how to render byte blobs; `None` means `Numbers` */
    bytesAs: W.Option<BytesFormat>,
    /** a format for byte blobs of at least the given length */
    longBytesAs: W.Option<(nat, BytesFormat)>,
    /** parsed `.did` files, searched in order for named types */
    prog: seq<IDLProg>,
    /** whitespace only; no conversion reads it */
    compact: bool)

  /**
   * Renderings that the Candid library supplies and that are not modelled:
   * `Label`'s `Display` and the `Display` of the value `Reserved`.
   */
  datatype Display = Display(labelText: Label -> string, reservedText: string)

  /** `serde_json::Number::from_f64` succeeds iff the float is finite. */
  predicate IsFinite64(bits: bv64) {
    (bits >> 52) & 0x7FF != 0x7FF
  }

  /** An `f32` is finite iff its exponent bits are not all ones; widening keeps that. */
  predicate IsFinite32(bits: bv32) {
    (bits >> 23) & 0xFF != 0xFF
  }

  /** Values that hold other values. */
  predicate IsContainer(v: IDLValue) {
    v.Opt? || v.Vec? || v.Record? || v.Variant?
  }

  /**
   * The rendering of a value that holds no other value. Both projectors use
   * the same table (conversion.rs lines 42-50, 67-94 and 215-223, 252-281).
   */
  function ScalarToJson(v: IDLValue, d: Display): (r: J.JsonValue)
    requires !IsContainer(v)
  {
    match v
    case Bool(b) => J.Bool(b)
    case Null => J.Null
    case Text(s) => J.String(s)
    case Number(s) => J.String(s)
    case Float64(f) => if IsFinite64(f) then J.Number(J.F64(f)) else J.String("NaN")
    case Principal(p) => J.String(p.text)
    case Service(p) => J.String(p.text)
    case Func(p, m) => J.Object([("principal", J.String(p.text)), ("code", J.String(m))])
    case None => J.Array([])
    case Int(i) => J.String(D.IntToString(i))
    case Nat(n) => J.String(D.IntToString(n))
    case Nat8(n) => J.Number(J.Int(n))
    case Nat16(n) => J.Number(J.Int(n))
    case Nat32(n) => J.Number(J.Int(n))
    case Nat64(n) => J.String(D.IntToString(n))
    case Int8(i) => J.Number(J.Int(i))
    case Int16(i) => J.Number(J.Int(i))
    case Int32(i) => J.Number(J.Int(i))
    case Int64(i) => J.String(D.IntToString(i))
    case Float32(f) => if IsFinite32(f) then J.Number(J.F32(f)) else J.String("NaN")
    case Reserved => J.String(d.reservedText)
  }

  // ---------------------------------------------------------------------------
  // Untyped path

  /** `idl2json`: converts a value without type information. */
  function Idl2Json(v: IDLValue, opts: Idl2JsonOptions, d: Display): (r: J.JsonValue)
    decreases v, 1
    ensures v.Record? ==>
      && r.Object? && |r.members| == |v.fields|
      && forall i :: 0 <= i < |v.fields| ==> r.members[i].0 == d.labelText(v.fields[i].id)
    ensures v.Variant? ==> r.Object? && |r.members| == 1 && r.members[0].0 == d.labelText(v.field.id)
    ensures v.Opt? ==> r.Array? && |r.items| == 1
    ensures v.Vec? ==> (r.Array? && |r.items| == |v.items|) || (r.String? && |r.s| == 2 * |v.items|)
  {
    match v
    case Opt(x) => J.Array([Idl2Json(x, opts, d)])
    case Vec(xs) =>
      (match ConvertBytes(xs, opts)
       case Ok(j) => j
       case Err(_) => ConvertNonBytesArray(xs, opts, d))
    case Record(fs) =>
      J.Object(seq(|fs|, i requires 0 <= i < |fs| => (d.labelText(fs[i].id), Idl2Json(fs[i].val, opts, d))))
    case Variant(f, _) => J.Object([(d.labelText(f.id), Idl2Json(f.val, opts, d))])
    case _ => ScalarToJson(v, d)
  }

  /** `convert_non_bytes_array`: the element-wise array. */
  function ConvertNonBytesArray(xs: seq<IDLValue>, opts: Idl2JsonOptions, d: Display): (r: J.JsonValue)
    decreases xs, 0
    ensures r.Array? && |r.items| == |xs|
    ensures forall i :: 0 <= i < |xs| ==> r.items[i] == Idl2Json(xs[i], opts, d)
  {
    J.Array(seq(|xs|, i requires 0 <= i < |xs| => Idl2Json(xs[i], opts, d)))
  }

  /** `idl_args2json`: the arguments of a call as an element-wise array. */
  function IdlArgs2Json(args: IDLArgs, opts: Idl2JsonOptions, d: Display): (r: J.JsonValue)
    ensures r.Array? && |r.items| == |args.args|
    ensures forall i :: 0 <= i < |args.args| ==> r.items[i] == Idl2Json(args.args[i], opts, d)
  {
    ConvertNonBytesArray(args.args, opts, d)
  }

  // ---------------------------------------------------------------------------
  // Byte blobs

  predicate AllNat8(xs: seq<IDLValue>) {
    forall i :: 0 <= i < |xs| ==> xs[i].Nat8?
  }

  function ByteValues(xs: seq<IDLValue>): (bs: seq<T.u8>)
    requires AllNat8(xs)
    ensures |bs| == |xs| && forall i :: 0 <= i < |xs| ==> bs[i] == xs[i].nat8
  {
    seq(|xs|, i requires 0 <= i < |xs| => xs[i].nat8)
  }

  /** The value of a lowercase hexadecimal digit; the partner of Nybble2Hex. */
  function HexDigitValue(c: char): W.Option<nat> {
    if '0' <= c <= '9' then W.Some(c as int - '0' as int)
    else if 'a' <= c <= 'f' then W.Some(c as int - 'a' as int + 10)
    else W.None
  }

  /** `nybble2hex`: '0'-'9' and 'a'-'f' for values below 16, and "?" for anything larger. */
  function Nybble2Hex(nybble: T.u8): (r: string)
    ensures nybble < 16 ==> |r| == 1 && HexDigitValue(r[0]) == W.Some(nybble)
    ensures nybble >= 16 ==> r == "?"
  {
    if nybble < 10 then [('0' as int + nybble) as char]
    else if nybble < 16 then [('a' as int + nybble - 10) as char]
    else "?"
  }

  /** Distinct nybbles give distinct digits. */
  lemma Nybble2HexInjective(a: T.u8, b: T.u8)
    requires a < 16 && b < 16 && Nybble2Hex(a) == Nybble2Hex(b)
    ensures a == b
  {
  }

  /** One byte as two digits, high nybble (`value >> 4`) first, then `value & 0xf`. */
  function ByteHex(b: T.u8): (r: string)
    ensures |r| == 2
  {
    Nybble2Hex(b / 16) + Nybble2Hex(b % 16)
  }

  /** The string the `Hex` branch of `format_bytes` builds from the byte values. */
  function HexString(bs: seq<T.u8>): string {
    if bs == [] then "" else HexString(bs[..|bs| - 1]) + ByteHex(bs[|bs| - 1])
  }

  /** The hex string holds two digits per byte, in byte order, high nybble first. */
  lemma {:induction false} HexStringLayout(bs: seq<T.u8>)
    ensures |HexString(bs)| == 2 * |bs|
    ensures forall k :: 0 <= k < |bs| ==>
      HexString(bs)[2 * k] == Nybble2Hex(bs[k] / 16)[0] && HexString(bs)[2 * k + 1] == Nybble2Hex(bs[k] % 16)[0]
  {
    if bs != [] {
      var p := bs[..|bs| - 1];
      HexStringLayout(p);
      var s := HexString(bs);
      assert s == HexString(p) + ByteHex(bs[|bs| - 1]);
      forall k | 0 <= k < |p|
        ensures s[2 * k] == HexString(p)[2 * k] && s[2 * k + 1] == HexString(p)[2 * k + 1]
      {
      }
    }
  }

  /** Reads a hex string back into bytes; the inverse of HexString. */
  function HexDecode(s: string): (r: W.Option<seq<T.u8>>)
    decreases |s|
  {
    if s == [] then W.Some([])
    else if |s| == 1 then W.None
    else
      var prefix := HexDecode(s[..|s| - 2]);
      var hi := HexDigitValue(s[|s| - 2]);
      var lo := HexDigitValue(s[|s| - 1]);
      if prefix.Some? && hi.Some? && lo.Some? && hi.value < 16 && lo.value < 16
      then W.Some(prefix.value + [hi.value * 16 + lo.value])
      else W.None
  }

  /** Decoding the hex rendering recovers the bytes exactly. */
  lemma {:induction false} HexRoundTrip(bs: seq<T.u8>)
    ensures HexDecode(HexString(bs)) == W.Some(bs)
  {
    if bs != [] {
      var p := bs[..|bs| - 1];
      var b := bs[|bs| - 1];
      HexRoundTrip(p);
      var s := HexString(bs);
      assert s == HexString(p) + ByteHex(b);
      assert s[..|s| - 2] == HexString(p);
      assert HexDigitValue(s[|s| - 2]) == W.Some(b / 16);
      assert HexDigitValue(s[|s| - 1]) == W.Some(b % 16);
      assert p + [b] == bs;
    }
  }

  /** Distinct byte sequences give distinct hex strings. */
  lemma HexStringInjective(a: seq<T.u8>, b: seq<T.u8>)
    requires HexString(a) == HexString(b)
    ensures a == b
  {
    HexRoundTrip(a);
    HexRoundTrip(b);
  }

  /**
   * `format_bytes`: `Err(())` iff some element is not a `Nat8`; otherwise an
   * array of the byte values (`Numbers`) or their hex string (`Hex`).
   */
  function FormatBytes(xs: seq<IDLValue>, format: BytesFormat): (r: W.Result<J.JsonValue, ()>)
    ensures r.Ok? <==> AllNat8(xs)
    ensures r.Ok? && format == Numbers ==>
      && r.value.Array? && |r.value.items| == |xs|
      && forall i :: 0 <= i < |xs| ==> r.value.items[i] == J.Number(J.Int(xs[i].nat8))
    ensures r.Ok? && format == Hex ==>
      && r.value.String? && |r.value.s| == 2 * |xs|
      && forall i :: 0 <= i < |xs| ==>
           r.value.s[2 * i] == Nybble2Hex(xs[i].nat8 / 16)[0] && r.value.s[2 * i + 1] == Nybble2Hex(xs[i].nat8 % 16)[0]
  {
    if !AllNat8(xs) then W.Err(())
    else
      match format
      case Numbers => W.Ok(J.Array(seq(|xs|, i requires 0 <= i < |xs| => J.Number(J.Int(xs[i].nat8)))))
      case Hex =>
        HexStringLayout(ByteValues(xs));
        W.Ok(J.String(HexString(ByteValues(xs))))
  }

  /** The `Hex` branch of `format_bytes`: a loop appending two digits per byte. */
  method FormatHex(xs: seq<IDLValue>) returns (r: W.Result<J.JsonValue, ()>)
    ensures r == FormatBytes(xs, Hex)
  {
    var ans := "";
    var i := 0;
    while i < |xs|
      invariant 0 <= i <= |xs|
      invariant AllNat8(xs[..i])
      invariant ans == HexString(ByteValues(xs[..i]))
    {
      match xs[i] {
        case Nat8(value) =>
          assert ByteValues(xs[..i + 1]) == ByteValues(xs[..i]) + [value];
          ans := ans + Nybble2Hex(value / 16);
          ans := ans + Nybble2Hex(value % 16);
        case _ =>
          assert !AllNat8(xs);
          return W.Err(());
      }
      i := i + 1;
    }
    assert xs[..i] == xs;
    assert AllNat8(xs);
    r := W.Ok(J.String(ans));
  }

  /**
   * `convert_bytes`: the format for long blobs applies when the length
   * reaches the threshold, otherwise `bytes_as`, which defaults to `Numbers`.
   */
  function ConvertBytes(xs: seq<IDLValue>, opts: Idl2JsonOptions): (r: W.Result<J.JsonValue, ()>)
    ensures r.Ok? <==> AllNat8(xs)
    ensures opts.longBytesAs.Some? && |xs| >= opts.longBytesAs.value.0 ==>
      r == FormatBytes(xs, opts.longBytesAs.value.1)
    ensures !(opts.longBytesAs.Some? && |xs| >= opts.longBytesAs.value.0) ==>
      r == FormatBytes(xs, opts.bytesAs.GetOr(Numbers))
  {
    match opts.longBytesAs
    case Some((len, format)) =>
      if |xs| >= len then FormatBytes(xs, format) else FormatBytes(xs, opts.bytesAs.GetOr(Numbers))
    case None => FormatBytes(xs, opts.bytesAs.GetOr(Numbers))
  }

  // ---------------------------------------------------------------------------
  // Type lookup

  predicate DeclaresType(dec: Dec, key: string) {
    dec.TypD? && dec.binding.id == key
  }

  /** The position of the first type declaration named `key`. */
  function FirstDeclaration(decs: seq<Dec>, key: string): (r: W.Option<nat>)
    ensures r.Some? ==>
      && r.value < |decs| && DeclaresType(decs[r.value], key)
      && forall j :: 0 <= j < r.value ==> !DeclaresType(decs[j], key)
    ensures r.None? ==> forall j :: 0 <= j < |decs| ==> !DeclaresType(decs[j], key)
  {
    if decs == [] then W.None
    else if DeclaresType(decs[0], key) then W.Some(0)
    else
      match FirstDeclaration(decs[1..], key)
      case Some(i) => W.Some(i + 1)
      case None => W.None
  }

  /** `idl_prog::get_type`: the type of the first `TypD` named `key`. */
  function GetType(prog: IDLProg, key: string): W.Option<IDLType> {
    match FirstDeclaration(prog.decs, key)
    case Some(i) => W.Some(prog.decs[i].binding.typ)
    case None => W.None
  }

  /** `get_type` finds nothing iff no type declaration has that name. */
  lemma GetTypeNone(prog: IDLProg, key: string)
    ensures GetType(prog, key).None? <==> forall j :: 0 <= j < |prog.decs| ==> !DeclaresType(prog.decs[j], key)
  {
  }

  /** The first declaration named `key` is the one `get_type` returns; later ones are shadowed. */
  lemma GetTypeFirst(prog: IDLProg, key: string, i: nat)
    requires i < |prog.decs| && DeclaresType(prog.decs[i], key)
    requires forall j :: 0 <= j < i ==> !DeclaresType(prog.decs[j], key)
    ensures GetType(prog, key) == W.Some(prog.decs[i].binding.typ)
  {
    var f := FirstDeclaration(prog.decs, key);
    assert f.Some?;
    assert !(f.value < i) && !(i < f.value);
  }

  /** `get_type_from_any`: the type found in the first program that declares `name`. */
  function GetTypeFromAny(progs: seq<IDLProg>, name: string): W.Option<IDLType> {
    if progs == [] then W.None
    else
      match GetType(progs[0], name)
      case Some(t) => W.Some(t)
      case None => GetTypeFromAny(progs[1..], name)
  }

  /** A name is unresolved iff no program declares it. */
  lemma {:induction false} GetTypeFromAnyNone(progs: seq<IDLProg>, name: string)
    ensures GetTypeFromAny(progs, name).None? <==> forall k :: 0 <= k < |progs| ==> GetType(progs[k], name).None?
  {
    if progs != [] {
      GetTypeFromAnyNone(progs[1..], name);
      assert forall k :: 1 <= k < |progs| ==> progs[k] == progs[1..][k - 1];
    }
  }

  /** The first program that declares `name` decides; later programs are not consulted. */
  lemma {:induction false} GetTypeFromAnyFirst(progs: seq<IDLProg>, name: string, k: nat)
    requires k < |progs| && GetType(progs[k], name).Some?
    requires forall j :: 0 <= j < k ==> GetType(progs[j], name).None?
    ensures GetTypeFromAny(progs, name) == GetType(progs[k], name)
    decreases k
  {
    if k > 0 {
      assert GetType(progs[0], name).None?;
      forall j | 0 <= j < k - 1
        ensures GetType(progs[1..][j], name).None?
      {
        assert progs[1..][j] == progs[j + 1];
      }
      GetTypeFromAnyFirst(progs[1..], name, k - 1);
    }
  }

  /** `idl_prog::get_init_arg_type`: the argument types of a service class, if any. */
  function GetInitArgType(prog: IDLProg): (r: W.Option<IDLTypes>)
    ensures r.Some? <==> prog.actor.Some? && prog.actor.value.ClassT?
    ensures r.Some? ==> r.value.args == prog.actor.value.initArgs
  {
    match prog.actor
    case Some(ClassT(args, _)) => W.Some(IDLTypes(args))
    case _ => W.None
  }

  // ---------------------------------------------------------------------------
  // Alias chains: a `VarT` resolving to a `VarT` consumes no part of the value,
  // so `type A = A;` would make the weak-names path recurse forever.

  function DecCount(progs: seq<IDLProg>): nat {
    if progs == [] then 0 else |progs[0].decs| + DecCount(progs[1..])
  }

  /** Following `VarT` aliases from `t` reaches a non-alias within `fuel` steps. */
  predicate AliasChainEnds(progs: seq<IDLProg>, t: IDLType, fuel: nat)
    decreases fuel
  {
    match t
    case VarT(name) =>
      (match GetTypeFromAny(progs, name)
       case None => true
       case Some(r) => fuel > 0 && AliasChainEnds(progs, r, fuel - 1))
    case _ => true
  }

  /** No chain of type aliases is longer than the number of declarations: no alias cycle. */
  ghost predicate AcyclicAliases(progs: seq<IDLProg>) {
    forall name: string :: AliasChainEnds(progs, VarT(name), DecCount(progs))
  }

  /** The number of alias steps from `t`, counted up to `fuel`. */
  function AliasDepth(progs: seq<IDLProg>, t: IDLType, fuel: nat): nat
    decreases fuel
  {
    match t
    case VarT(name) =>
      (match GetTypeFromAny(progs, name)
       case None => 0
       case Some(r) => if fuel == 0 then 0 else 1 + AliasDepth(progs, r, fuel - 1))
    case _ => 0
  }

  function TypeDepth(progs: seq<IDLProg>, t: IDLType): nat {
    AliasDepth(progs, t, DecCount(progs))
  }

  lemma {:induction false} AliasDepthStable(progs: seq<IDLProg>, t: IDLType, fuel: nat, more: nat)
    requires AliasChainEnds(progs, t, fuel) && fuel <= more
    ensures AliasChainEnds(progs, t, more)
    ensures AliasDepth(progs, t, more) == AliasDepth(progs, t, fuel)
    decreases fuel
  {
    if t.VarT? && GetTypeFromAny(progs, t.name).Some? {
      AliasDepthStable(progs, GetTypeFromAny(progs, t.name).value, fuel - 1, more - 1);
    }
  }

  /** Resolving a name moves one step down the alias chain. */
  lemma AliasStep(progs: seq<IDLProg>, name: string, r: IDLType)
    requires AcyclicAliases(progs)
    requires GetTypeFromAny(progs, name) == W.Some(r)
    ensures TypeDepth(progs, r) < TypeDepth(progs, VarT(name))
  {
    var n := DecCount(progs);
    assert AliasChainEnds(progs, VarT(name), n);
    AliasDepthStable(progs, r, n - 1, n);
  }

  // ---------------------------------------------------------------------------
  // Weak names

  /** The position of the first type field whose label id is `id`. */
  function FindTypeField(tfs: seq<TypeField>, id: T.u32): (r: W.Option<nat>)
    ensures r.Some? ==>
      && r.value < |tfs| && LabelId(tfs[r.value].fieldLabel) == id
      && forall j :: 0 <= j < r.value ==> LabelId(tfs[j].fieldLabel) != id
    ensures r.None? ==> forall j :: 0 <= j < |tfs| ==> LabelId(tfs[j].fieldLabel) != id
  {
    if tfs == [] then W.None
    else if LabelId(tfs[0].fieldLabel) == id then W.Some(0)
    else
      match FindTypeField(tfs[1..], id)
      case Some(i) => W.Some(i + 1)
      case None => W.None
  }

  /**
   * `idl2json_with_weak_names`: converts a value using a type for key names,
   * falling back to the untyped path for every subtree the type does not fit.
   * A `VarT` is resolved through the programs first; an unknown name means
   * no type information at all.
   */
  function Idl2JsonWithWeakNames(v: IDLValue, t: IDLType, opts: Idl2JsonOptions, d: Display): (r: J.JsonValue)
    requires AcyclicAliases(opts.prog)
    decreases v, 1, TypeDepth(opts.prog, t), 1
    ensures v.Record? ==> r.Object? && |r.members| == |v.fields|
    ensures v.Variant? ==> r.Object? && |r.members| == 1
    ensures v.Opt? ==> r.Array? && |r.items| == 1
    ensures v.Vec? ==> (r.Array? && |r.items| == |v.items|) || (r.String? && |r.s| == 2 * |v.items|)
  {
    match t
    case VarT(name) =>
      (match GetTypeFromAny(opts.prog, name)
       case Some(resolved) =>
         AliasStep(opts.prog, name, resolved);
         Idl2JsonWithWeakNames(v, resolved, opts, d)
       case None => Idl2Json(v, opts, d))
    case _ => WeakNamesByShape(v, t, opts, d)
  }

  /** The `(value, type)` match of `idl2json_with_weak_names`, for a type that is not a name. */
  function WeakNamesByShape(v: IDLValue, t: IDLType, opts: Idl2JsonOptions, d: Display): (r: J.JsonValue)
    requires AcyclicAliases(opts.prog) && !t.VarT?
    decreases v, 1, 0, 0
    ensures v.Record? ==> r.Object? && |r.members| == |v.fields|
    ensures v.Variant? ==> r.Object? && |r.members| == 1
    ensures v.Opt? ==> r.Array? && |r.items| == 1
    ensures v.Vec? ==> (r.Array? && |r.items| == |v.items|) || (r.String? && |r.s| == 2 * |v.items|)
  {
    match v
    case Opt(x) =>
      if t.OptT? then J.Array([Idl2JsonWithWeakNames(x, t.optType, opts, d)]) else Idl2Json(v, opts, d)
    case Vec(xs) =>
      if !t.VecT? then Idl2Json(v, opts, d)
      else if t.itemType == PrimT(PrimType.Nat8) then
        (match ConvertBytes(xs, opts)
         case Ok(j) => j
         case Err(_) => ConvertNonBytesArray(xs, opts, d))
      else J.Array(seq(|xs|, i requires 0 <= i < |xs| => Idl2JsonWithWeakNames(xs[i], t.itemType, opts, d)))
    case Record(fs) =>
      if t.RecordT? then J.Object(seq(|fs|, i requires 0 <= i < |fs| => ConvertIdlField(fs[i], t.recordFields, opts, d)))
      else Idl2Json(v, opts, d)
    case Variant(f, _) =>
      if t.VariantT? then J.Object([ConvertIdlField(f, t.variantFields, opts, d)]) else Idl2Json(v, opts, d)
    case _ => ScalarToJson(v, d)
  }

  /**
   * `convert_idl_field`: keyed by the first type field with the same label
   * id and converted with its type, else keyed by the raw label, untyped.
   */
  function ConvertIdlField(f: IDLField, tfs: seq<TypeField>, opts: Idl2JsonOptions, d: Display): (r: (string, J.JsonValue))
    requires AcyclicAliases(opts.prog)
    decreases f.val, 2, 0, 0
  {
    match FindTypeField(tfs, LabelId(f.id))
    case Some(i) => (d.labelText(tfs[i].fieldLabel), Idl2JsonWithWeakNames(f.val, tfs[i].typ, opts, d))
    case None => (d.labelText(f.id), Idl2Json(f.val, opts, d))
  }
}
