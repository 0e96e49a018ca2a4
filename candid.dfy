/**
 * The Candid data model the projector consumes: decoded values (`IDLValue`),
 * parsed type expressions (`IDLType`) and parsed `.did` programs (`IDLProg`),
 * with the label-id hash Candid uses to match field names.
 */
module Candid {
  import W = Wrappers
  import T = Types

  /** A field label: a numeric id, a name, or a position in a tuple. */
  datatype Label = Id(n: T.u32) | Named(name: string) | Unnamed(pos: T.u32)

  datatype IDLField = IDLField(id: Label, val: IDLValue)

  datatype IDLValue =
    | Bool(boolValue: bool)
    | Null
    | Text(text: string)
    /** a number literal whose type is not known */
    | Number(literal: string)
    | Float64(f64: bv64)
    | Opt(inner: IDLValue)
    | Vec(items: seq<IDLValue>)
    | Record(fields: seq<IDLField>)
    /** the selected case and its index among the variant's cases */
    | Variant(field: IDLField, index: T.u64)
    | Principal(principal: T.Principal)
    | Service(service: T.Principal)
    | Func(funcPrincipal: T.Principal, methodName: string)
    /** an absent optional value */
    | None
    | Int(intValue: int)
    | Nat(natValue: nat)
    | Nat8(nat8: T.u8)
    | Nat16(nat16: T.u16)
    | Nat32(nat32: T.u32)
    | Nat64(nat64: T.u64)
    | Int8(int8: T.i8)
    | Int16(int16: T.i16)
    | Int32(int32: T.i32)
    | Int64(int64: T.i64)
    | Float32(f32: bv32)
    | Reserved

  datatype IDLArgs = IDLArgs(args: seq<IDLValue>)

  datatype PrimType =
    | Nat | Nat8 | Nat16 | Nat32 | Nat64
    | Int | Int8 | Int16 | Int32 | Int64
    | Float32 | Float64 | Bool | Text | Null | Reserved | Empty

  datatype IDLType =
    | PrimT(prim: PrimType)
    /** a reference to a named type declaration */
    | VarT(name: string)
    | FuncT(args: seq<IDLType>, rets: seq<IDLType>)
    | OptT(optType: IDLType)
    | VecT(itemType: IDLType)
    | RecordT(recordFields: seq<TypeField>)
    | VariantT(variantFields: seq<TypeField>)
    | ServT(methods: seq<Binding>)
    | ClassT(initArgs: seq<IDLType>, service: IDLType)
    | PrincipalT

  datatype TypeField = TypeField(fieldLabel: Label, typ: IDLType)

  datatype Binding = Binding(id: string, typ: IDLType)

  /** A declaration of a `.did` file: `type id = typ;` or `import "path";`. */
  datatype Dec = TypD(binding: Binding) | ImportD(path: string)

  /** A parsed `.did` file. */
  datatype IDLProg = IDLProg(decs: seq<Dec>, actor: W.Option<IDLType>)

  datatype IDLTypes = IDLTypes(args: seq<IDLType>)

  /** The UTF-8 encoding of one character. */
  function Utf8(c: char): (bytes: seq<T.u8>)
    ensures 1 <= |bytes| <= 4
  {
    var n := c as int;
    if n < 0x80 then [n]
    else if n < 0x800 then [0xC0 + n / 0x40, 0x80 + n % 0x40]
    else if n < 0x1_0000 then [0xE0 + n / 0x1000, 0x80 + (n / 0x40) % 0x40, 0x80 + n % 0x40]
    else [0xF0 + n / 0x4_0000, 0x80 + (n / 0x1000) % 0x40, 0x80 + (n / 0x40) % 0x40, 0x80 + n % 0x40]
  }

  function Utf8String(s: string): seq<T.u8> {
    if s == [] then [] else Utf8String(s[..|s| - 1]) + Utf8(s[|s| - 1])
  }

  /** Candid's field hash: fold `h * 223 + byte` over the UTF-8 bytes, modulo 2^32. */
  function HashBytes(bytes: seq<T.u8>): T.u32 {
    if bytes == [] then 0
    else (HashBytes(bytes[..|bytes| - 1]) * 223 + bytes[|bytes| - 1]) % 0x1_0000_0000
  }

  function IdlHash(name: string): T.u32 {
    HashBytes(Utf8String(name))
  }

  /** `Label::get_id`: the number by which field labels are compared. */
  function LabelId(l: Label): T.u32 {
    match l
    case Id(n) => n
    case Unnamed(n) => n
    case Named(name) => IdlHash(name)
  }
}
