# enum-primitive-derive, modelled in Dafny

The crate provides `#[derive(Primitive)]`, a custom derive that turns a C-like
Rust enum, one whose variants carry no data and each have an explicit
discriminant (`enum Foo { Bar = 32, Dead = 42, Beef = 50 }`), into
implementations of `num_traits::FromPrimitive` (`from_u64`, `from_i64`) and
`num_traits::ToPrimitive` (`to_u64`, `to_i64`).

The model has two parts, both pure functions:

- **Extraction** (`Derive`). `ImplPrimitive` models `impl_primitive`. It refuses
  a struct (`NotAnEnum`). It walks the variants in declaration order and fails
  at the first one that is not in unit form (`MemberHasPayload`, checked
  first; a tuple or braced variant is refused even with no fields, as in `A()`
  or `A {}`) or lacks a discriminant (`MissingDiscriminant`). Otherwise it yields the list of
  (variant, discriminant) arms that every generated method matches over. The
  three panics of the source are the three `DeriveError` values. They abort
  the derive, so nothing is generated.
- **Meaning of the generated code** (`Conversions`). `Decode` is the generated
  `match val { d_1 => Some(V_1), ..., _ => None }`: a first-match search in
  declaration order, total, with `None` as the fallback. `FromU64` and
  `FromI64` apply it to a `u64` and an `i64` argument. `Encode` is the
  generated `match *self { V_i => Some(d_i) }`. `to_u64` and `to_i64` have the
  same body, so `Encode` models both.

The lemmas relate the two parts. Every variant encodes to its own declared
discriminant, even when discriminants repeat. Encode then decode gives the
variant back when discriminants are distinct. Decode then encode gives the
value back in every case. Every variant round-trips if and only if the
discriminants are distinct. The later of two variants sharing a discriminant
is never produced by decoding, whatever the value. The signed and unsigned decoders agree where
both widths can hold the value. `Examples` states the crate's documented
`Foo` example and one input for each error.

Files: `wrappers.dfy` (Option, Result), `syn_input.dfy` (the parsed item:
`syn::DeriveInput`, `syn::Body`, `syn::Variant`, `syn::VariantData`),
`derive.dfy`, `conversions.dfy`, `examples.dfy`.

An enum value (`self`, or the `Self` inside `Some`) is represented by its
variant's name. Rust rejects an enum with two variants of the same name. The
model does not build that rule into the input type. The lemmas that need it
take `DistinctNames` as a hypothesis.

## Model

| member | source | states |
|---|---|---|
| Derive.Rejection | src/lib.rs:90-96 | a rejected variant raises MemberHasPayload exactly when it is not in unit form (tuple or braced, even with no fields), otherwise MissingDiscriminant; never NotAnEnum |
| Derive.ExtractArm | src/lib.rs:89-97 | a variant passes exactly when it is unit-like with a discriminant; its arm then copies the name and discriminant; a rejected variant gives its Rejection |
| Derive.ExtractArms | src/lib.rs:89-98 | succeeds exactly when every variant is C-like, and then gives one arm per variant, in order, each copied unchanged; otherwise fails with the error of the first rejected variant |
| Derive.ImplPrimitive | src/lib.rs:83-153 | fails with NotAnEnum exactly when the item is not an enum; succeeds exactly for an enum of C-like variants, with the enum's name and the variants copied in order; any other failure is the first rejected variant's error |
| Derive.FailsAtFirstRejected | src/lib.rs:89-98 | failure order: when variant k is the first one rejected, the derive's result is exactly that variant's error, whatever follows it |
| Conversions.Decode | src/lib.rs:121-133 | None exactly when no arm carries the value; otherwise the variant of the first arm, in declaration order, carrying it |
| Conversions.FromU64 | src/lib.rs:121-126 | from_u64: None exactly when no discriminant equals the value; otherwise the first matching variant |
| Conversions.FromI64 | src/lib.rs:128-133 | from_i64: None exactly when no discriminant equals the value; otherwise the first matching variant |
| Conversions.Encode | src/lib.rs:137-147 | to_u64/to_i64 of a variant is always Some, holding the discriminant of that variant's arm |
| Conversions.DecodeFirstMatch | src/lib.rs:122-125 | if arm i is the first carrying a value, decoding the value gives arm i's variant |
| Conversions.EncodeOwnDiscriminant | src/lib.rs:137-147 | with distinct variant names, every variant encodes to its own declared discriminant, even when discriminants repeat |
| Conversions.EncodeThenDecode | src/lib.rs:121-147 | with distinct discriminants, decoding the value a variant encodes to gives that variant back |
| Conversions.DecodeThenEncode | src/lib.rs:121-147 | with distinct variant names, a variant that a value decodes to encodes back to that value, duplicates or not |
| Conversions.DuplicateDiscShadowed | src/lib.rs:121-141 | when two variants share a discriminant, no value decodes to the later one, yet the later one still encodes to the shared discriminant |
| Conversions.RoundTripIffDistinctDiscs | src/lib.rs:121-147 | with distinct names, every variant round-trips through decode exactly when the discriminants are pairwise distinct |
| Conversions.SignedUnsignedAgree | src/lib.rs:104-133 | from_u64 and from_i64 give the same result for every value in the range both types share |
| Conversions.DerivedEncodeIsDeclared | src/lib.rs:89-147 | in the impl derived from an accepted enum with distinct variant names, each variant encodes to the discriminant it was declared with |
| Conversions.DerivedDecodeIsFirstDeclared | src/lib.rs:89-133 | in the impl derived from an accepted enum, from_i64 gives the first declared variant with that discriminant, and None when none was declared with it |
| Examples.FooDerives | src/lib.rs:37-42 | the derive accepts Foo { Bar = 32, Dead = 42, Beef = 50 } and emits its three arms in order |
| Examples.FooConverts | src/lib.rs:44-54 | for Foo: 32, 42 and 50 decode to Bar, Dead and Beef, 17 decodes to None; Bar and Dead encode to 32 and 42 |
| Examples.StructRejected | src/lib.rs:150-151 | any struct is refused with NotAnEnum |
| Examples.PayloadReportedFirst | src/lib.rs:90-92 | enum { A = 1, B(u8), C } fails with MemberHasPayload for B, not with C's missing discriminant |
| Examples.MissingDiscriminantReportedFirst | src/lib.rs:93-96 | enum { A, B { x: u8 } = 2 } fails with MissingDiscriminant, because A comes first |
| Examples.DuplicateAccepted | src/lib.rs:89-147 | enum { A = 7, B = 7 } is accepted; 7 decodes to A and B still encodes to 7 |

## Left out

- The `primitive` entry point (src/lib.rs:69-81) is not modelled. It converts the token stream to a string, parses it with `syn` and re-parses the generated text. That is plumbing over foreign crates.
- Token emission is not modelled. The model covers what the `quote!` output means, not its text, and leaves out the `extern crate core;` line. The vector clones (src/lib.rs:100-115) only work around `quote!` and carry no meaning. The model keeps one arm list where the source keeps parallel name and discriminant vectors.
- The panic messages are not modelled. Each panic is a `DeriveError` value that names which check failed.
- Discriminant expressions are not evaluated. The source passes them through verbatim. The model takes each one to be an integer literal.
- rustc's own checks on the item and on the generated code are not modelled. Two variants may not share a name: the lemmas take this as the `DistinctNames` hypothesis. A literal must fit its match type: a negative discriminant, or one above `i64::MAX`, makes the generated impl fail to compile. The model compares unbounded integers, so in `FromU64` such a discriminant never matches. Duplicate-pattern warnings are not modelled either.
- Encode: returns an unbounded integer, not a `u64` or an `i64`, because the range of each literal is rustc's check (above). The model also requires `self` to be one of the enum's variants, which Rust's type of `self` guarantees.
- The `num_traits` default methods (`from_i32`, `from_isize`, `to_i32`, `to_isize`, ...) are not modelled. They live in a foreign crate. The documented example is stated through `from_i64`, which `from_i32` and `from_isize` forward to, and through `Encode`.
- The bit-reinterpretation encoding strategy is not modelled. This version of the crate does not use it: its `to_u64` and `to_i64` are structural matches.
