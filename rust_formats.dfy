/**
  * The format descriptions the Rust code generator works on, as the
  * serde-reflection crate declares them: a `Format` describes one value, a
  * `ContainerFormat` one named struct or enum of a registry.  The crate
  * itself is not part of this model; these declarations restate its types
  * with the constructors the generator matches on.
  */
module Formats {

  /** One format.  `Variable` is a placeholder that tracing left unresolved. */
  datatype Format =
    | Variable
    | TypeName(name: string)
    | Unit | Bool
    | I8 | I16 | I32 | I64 | I128
    | U8 | U16 | U32 | U64 | U128
    | F32 | F64 | Char | Str | Bytes
    | Option(inner: Format)
    | Seq(item: Format)
    | Map(key: Format, value: Format)
    | Tuple(formats: seq<Format>)
    | TupleArray(content: Format, size: nat)

  datatype Named<T> = Named(name: string, value: T)

  datatype VariantFormat =
    | VariantVariable
    | UnitVariant
    | NewTypeVariant(format: Format)
    | TupleVariant(formats: seq<Format>)
    | StructVariant(fields: seq<Named<Format>>)

  datatype ContainerFormat =
    | UnitStruct
    | NewTypeStruct(format: Format)
    | TupleStruct(formats: seq<Format>)
    | Struct(fields: seq<Named<Format>>)
    | Enum(variants: map<nat, Named<VariantFormat>>)

  /** A registry: container formats by name. */
  type Registry = map<string, ContainerFormat>

  /** `f` holds no unresolved placeholder anywhere. */
  predicate Resolved(f: Format)
  {
    match f
    case Variable => false
    case Option(g) => Resolved(g)
    case Seq(g) => Resolved(g)
    case Map(k, v) => Resolved(k) && Resolved(v)
    case Tuple(fs) => forall i | 0 <= i < |fs| :: Resolved(fs[i])
    case TupleArray(g, _) => Resolved(g)
    case _ => true
  }
}
