/**
 * The part of the parsed item (`syn::DeriveInput`) that the derive looks at:
 * the type's name, whether it is an enum or a struct, and for an enum its
 * variants in declaration order.
 */
module Syn {
  import opened Wrappers

  /**
   * The form a variant is written in: unit (`A`), tuple (`A(u8)`, and also
   * `A()` with no fields) or braced (`A { x: u8 }`, and also `A {}` with no
   * fields). Only the unit form counts as C-like.
   */
  datatype VariantData = Unit | Tuple | Struct

  /**
   * One declared variant. The discriminant is the expression after `=`, if any;
   * it is taken here to be an integer literal.
   */
  datatype Variant = Variant(ident: string, data: VariantData, discriminant: Option<int>)

  /** The body of the annotated item: the variants of an enum, or the fields of a struct. */
  datatype Body = Enum(variants: seq<Variant>) | Struct(fields: VariantData)

  /** The item `#[derive(Primitive)]` is attached to. */
  datatype DeriveInput = DeriveInput(ident: string, body: Body)
}
