/** The language-independent types and annotations (src/constraints/types.rs). */
module Types {
  import opened Options

  datatype TypeInfo =
    | SignedInt(bits: nat)
    | UnsignedInt(bits: nat)
    | Float(bits: nat)
    | Bool
    | ByteArray(size: nat)
    | Pointer(inner: TypeInfo)
    | Struct(name: string, sizeBytes: Option<nat>, fields: seq<Field>)
    | Enum(name: string, variants: seq<int>, discriminantBits: nat)
    | OptionOf(inner: TypeInfo)
    | ResultOf(ok: TypeInfo, err: TypeInfo)
    | Opaque(name: string, size: nat)
    | Void

  datatype Field = Field(name: string, ty: TypeInfo)

  // The annotations that mention a size, and all the others.
  datatype Annotation =
    | InReads(n: nat)
    | OutWrites(n: nat)
    | InReadsParam(param: string)
    | OutWritesParam(param: string)
    | InZ(n: nat)
    | Dereferenceable(n: nat)
    | OtherAnnotation(text: string)

  datatype ParamInfo = ParamInfo(name: string, ty: TypeInfo, annotations: seq<Annotation>)
}
