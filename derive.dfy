/**
 * `impl_primitive`: validate the annotated item and turn its variants into the
 * list of (variant, discriminant) pairs that every generated conversion is
 * built from.
 */
module Derive {
  import opened Wrappers
  import opened Syn

  /** The three panics of the derive; each aborts compilation of the item. */
  datatype DeriveError =
    | NotAnEnum            // the item is a struct: "only valid for C-like enums"
    | MemberHasPayload     // a variant has fields: "can only operate on C-like enums"
    | MissingDiscriminant  // a variant has no `= value`: "requires ... discriminants for all enum variants"

  /** One arm of the generated matches: discriminant `disc` stands for variant `variant`. */
  datatype Arm = Arm(variant: string, disc: int)

  /**
   * What the derive emits for the enum `name`: the `FromPrimitive` and
   * `ToPrimitive` impls, all four of whose methods match over the same arms.
   */
  datatype PrimitiveImpl = PrimitiveImpl(name: string, arms: seq<Arm>)

  /** A variant the derive accepts: no payload and an explicit discriminant. */
  predicate CLike(v: Variant) {
    v.data == Unit && v.discriminant.Some?
  }

  /** `arms` copies `vs` one for one, in order, names and discriminants unchanged. */
  predicate Copies(arms: seq<Arm>, vs: seq<Variant>) {
    && |arms| == |vs|
    && forall i :: 0 <= i < |vs| ==> arms[i].variant == vs[i].ident && vs[i].discriminant == Some(arms[i].disc)
  }

  /** `vs[k]` is the first variant, in declaration order, that the derive rejects. */
  predicate FirstRejected(vs: seq<Variant>, k: int) {
    && 0 <= k < |vs|
    && !CLike(vs[k])
    && forall j :: 0 <= j < k ==> CLike(vs[j])
  }

  /** The error a rejected variant raises: a payload is reported before a missing discriminant. */
  function Rejection(v: Variant): (e: DeriveError)
    requires !CLike(v)
    ensures e != NotAnEnum
    ensures e == MemberHasPayload <==> v.data != Unit
  {
    if v.data != Unit then MemberHasPayload else MissingDiscriminant
  }

  /** The closure mapped over the variants: check one variant and take its pair. */
  function ExtractArm(v: Variant): (r: Result<Arm, DeriveError>)
    ensures r.Success? <==> CLike(v)
    ensures r.Success? ==> Copies([r.value], [v])
    ensures r.Failure? ==> r.error == Rejection(v)
  {
    if v.data != Unit then Failure(MemberHasPayload)
    else if v.discriminant.None? then Failure(MissingDiscriminant)
    else Success(Arm(v.ident, v.discriminant.value))
  }

  /**
   * `variants.iter().map(...).unzip()`: the pairs of all variants in order, or the
   * panic of the first variant that is not C-like.
   */
  function ExtractArms(vs: seq<Variant>): (r: Result<seq<Arm>, DeriveError>)
    ensures r.Success? <==> forall i :: 0 <= i < |vs| ==> CLike(vs[i])
    ensures r.Success? ==> Copies(r.value, vs)
    ensures r.Failure? ==> exists k :: FirstRejected(vs, k) && r.error == Rejection(vs[k])
  {
    if |vs| == 0 then Success([])
    else
      match ExtractArm(vs[0])
      case Failure(e) =>
        assert FirstRejected(vs, 0);
        Failure(e)
      case Success(arm) =>
        match ExtractArms(vs[1..])
        case Failure(e) =>
          ghost var k :| FirstRejected(vs[1..], k) && e == Rejection(vs[1..][k]);
          assert FirstRejected(vs, k + 1);
          Failure(e)
        case Success(rest) =>
          Success([arm] + rest)
  }

  /** `impl_primitive`: the generated impl for an enum of C-like variants, or the panic. */
  function ImplPrimitive(ast: DeriveInput): (r: Result<PrimitiveImpl, DeriveError>)
    ensures r == Failure(NotAnEnum) <==> !ast.body.Enum?
    ensures r.Success? <==> ast.body.Enum? && forall i :: 0 <= i < |ast.body.variants| ==> CLike(ast.body.variants[i])
    ensures r.Success? ==> r.value.name == ast.ident && Copies(r.value.arms, ast.body.variants)
    ensures r.Failure? && ast.body.Enum? ==>
              exists k :: FirstRejected(ast.body.variants, k) && r.error == Rejection(ast.body.variants[k])
  {
    if ast.body.Enum? then
      match ExtractArms(ast.body.variants)
      case Failure(e) => Failure(e)
      case Success(arms) => Success(PrimitiveImpl(ast.ident, arms))
    else
      Failure(NotAnEnum)
  }

  /**
   * Failure order: when `vs[k]` is the first variant that is not C-like, the
   * derive fails with exactly that variant's error, whatever follows it.
   */
  lemma FailsAtFirstRejected(name: string, vs: seq<Variant>, k: int)
    requires FirstRejected(vs, k)
    ensures ImplPrimitive(DeriveInput(name, Enum(vs))) == Failure(Rejection(vs[k]))
  {
    var r := ImplPrimitive(DeriveInput(name, Enum(vs)));
    var k' :| FirstRejected(vs, k') && r.error == Rejection(vs[k']);
  }
}
