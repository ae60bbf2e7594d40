/** The crate's documented `Foo` example, and one item for each panic of the derive. */
module Examples {
  import opened Wrappers
  import opened Syn
  import opened Derive
  import opened Conversions

  /** `enum Foo { Bar = 32, Dead = 42, Beef = 50 }` */
  function FooInput(): DeriveInput {
    DeriveInput("Foo", Enum([
      Variant("Bar", Unit, Some(32)),
      Variant("Dead", Unit, Some(42)),
      Variant("Beef", Unit, Some(50))]))
  }

  /** The derive accepts `Foo` and emits its three arms in declaration order. */
  lemma FooDerives()
    ensures ImplPrimitive(FooInput()) == Success(PrimitiveImpl("Foo", FooArms()))
  {
    var vs := FooInput().body.variants;
    assert CLike(vs[0]) && CLike(vs[1]) && CLike(vs[2]);
    var r := ImplPrimitive(FooInput());
    assert r.Success? && Copies(r.value.arms, vs);
    var arms := r.value.arms;
    assert arms[0].variant == vs[0].ident && vs[0].discriminant == Some(arms[0].disc);
    assert arms[1].variant == vs[1].ident && vs[1].discriminant == Some(arms[1].disc);
    assert arms[2].variant == vs[2].ident && vs[2].discriminant == Some(arms[2].disc);
    assert arms == FooArms();
  }

  /** The arms the derive emits for `Foo`. */
  function FooArms(): seq<Arm> {
    [Arm("Bar", 32), Arm("Dead", 42), Arm("Beef", 50)]
  }

  /**
   * The documented conversions of the impl derived for `Foo` (see FooDerives) (`from_i32` and `from_isize` reach
   * `from_i64`): 32, 42 and 50 decode to their variants, 17 to `None`;
   * `Bar` and `Dead` encode to 32 and 42.
   */
  lemma FooConverts()
    ensures var foo := PrimitiveImpl("Foo", FooArms());
            && FromI64(foo, 32) == Some("Bar")
            && FromI64(foo, 42) == Some("Dead")
            && FromI64(foo, 50) == Some("Beef")
            && FromI64(foo, 17) == None
            && FromU64(foo, 42) == Some("Dead")
            && IsVariant(foo.arms, "Bar") && Encode(foo.arms, "Bar") == Some(32)
            && IsVariant(foo.arms, "Dead") && Encode(foo.arms, "Dead") == Some(42)
  {
    var arms := FooArms();
    assert FirstMatch(arms, 32, 0) && FirstMatch(arms, 42, 1) && FirstMatch(arms, 50, 2);
    DecodeFirstMatch(arms, 32, 0);
    DecodeFirstMatch(arms, 42, 1);
    DecodeFirstMatch(arms, 50, 2);
    assert forall i :: 0 <= i < |arms| ==> arms[i].disc != 17;
    assert DistinctNames(arms);
    EncodeOwnDiscriminant(arms, 0);
    EncodeOwnDiscriminant(arms, 1);
  }

  /** A struct is refused outright. */
  lemma StructRejected(name: string, fields: VariantData)
    ensures ImplPrimitive(DeriveInput(name, Body.Struct(fields))) == Failure(NotAnEnum)
  {
  }

  /**
   * `enum E { A = 1, B(u8), C }`: the tuple variant `B` is the first offender,
   * so the derive reports its payload, not `C`'s missing discriminant.
   */
  lemma PayloadReportedFirst()
    ensures ImplPrimitive(DeriveInput("E", Enum([
              Variant("A", Unit, Some(1)),
              Variant("B", Tuple, None),
              Variant("C", Unit, None)]))) == Failure(MemberHasPayload)
  {
  }

  /** `enum E { A, B { x: u8 } = 2 }`: `A` lacks a discriminant and comes first. */
  lemma MissingDiscriminantReportedFirst()
    ensures ImplPrimitive(DeriveInput("E", Enum([
              Variant("A", Unit, None),
              Variant("B", VariantData.Struct, Some(2))]))) == Failure(MissingDiscriminant)
  {
  }

  /**
   * `enum E { A = 7, B = 7 }` derives without complaint; `from_i64(7)` is `A`
   * and `B` still encodes to 7.
   */
  lemma DuplicateAccepted()
    ensures ImplPrimitive(DeriveInput("E", Enum([Variant("A", Unit, Some(7)), Variant("B", Unit, Some(7))]))).Success?
    ensures var e := ImplPrimitive(DeriveInput("E", Enum([Variant("A", Unit, Some(7)), Variant("B", Unit, Some(7))]))).value;
            && FromI64(e, 7) == Some("A")
            && IsVariant(e.arms, "B") && Encode(e.arms, "B") == Some(7)
  {
    var arms := [Arm("A", 7), Arm("B", 7)];
    assert arms[1].variant == "B";
  }
}
