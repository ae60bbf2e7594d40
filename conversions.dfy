/**
 * The meaning of the code the derive emits. Both `from_u64` and `from_i64` are
 * `match val { d_1 => Some(V_1), ..., _ => None }`; both `to_u64` and `to_i64`
 * are `match *self { V_1 => Some(d_1), ... }`. All four are read off the same
 * arm list, so the model has one decoder (used at two input widths) and one
 * encoder.
 */
module Conversions {
  import opened Wrappers
  import opened Derive

  /** Rust's `u64`. */
  newtype uint64 = x: int | 0 <= x < 0x1_0000_0000_0000_0000

  /** Rust's `i64`. */
  newtype int64 = x: int | -0x8000_0000_0000_0000 <= x < 0x8000_0000_0000_0000

  /** Arm `i` is the first, in declaration order, whose discriminant is `val`. */
  predicate FirstMatch(arms: seq<Arm>, val: int, i: int) {
    && 0 <= i < |arms|
    && arms[i].disc == val
    && forall j :: 0 <= j < i ==> arms[j].disc != val
  }

  /** Arm `i` is the first, in declaration order, for variant `name`. */
  predicate FirstNamed(arms: seq<Arm>, name: string, i: int) {
    && 0 <= i < |arms|
    && arms[i].variant == name
    && forall j :: 0 <= j < i ==> arms[j].variant != name
  }

  /** `name` is one of the enum's variants, i.e. a value `self` can take. */
  predicate IsVariant(arms: seq<Arm>, name: string) {
    exists i :: 0 <= i < |arms| && arms[i].variant == name
  }

  /** No two variants share a name; rustc rejects an enum that breaks this. */
  predicate DistinctNames(arms: seq<Arm>) {
    forall i, j :: 0 <= i < j < |arms| ==> arms[i].variant != arms[j].variant
  }

  /** No two variants share a discriminant; the derive does not check this. */
  predicate DistinctDiscs(arms: seq<Arm>) {
    forall i, j :: 0 <= i < j < |arms| ==> arms[i].disc != arms[j].disc
  }

  /**
   * The generated `match val { d_1 => Some(V_1), ..., _ => None }`: the arms are
   * tried in order and the first equal discriminant wins; no match is `None`.
   */
  function Decode(arms: seq<Arm>, val: int): (r: Option<string>)
    ensures r.None? <==> forall i :: 0 <= i < |arms| ==> arms[i].disc != val
    ensures r.Some? ==> exists i :: FirstMatch(arms, val, i) && r.value == arms[i].variant
  {
    if |arms| == 0 then None
    else if arms[0].disc == val then
      assert FirstMatch(arms, val, 0);
      Some(arms[0].variant)
    else
      var r := Decode(arms[1..], val);
      assert r.Some? ==> exists i :: FirstMatch(arms, val, i) && r.value == arms[i].variant by {
        if r.Some? {
          var i :| FirstMatch(arms[1..], val, i) && r.value == arms[1..][i].variant;
          assert FirstMatch(arms, val, i + 1);
        }
      }
      r
  }

  /** The generated `from_u64`. */
  function FromU64(impl: PrimitiveImpl, val: uint64): (r: Option<string>)
    ensures r.None? <==> forall i :: 0 <= i < |impl.arms| ==> impl.arms[i].disc != val as int
    ensures r.Some? ==> exists i :: FirstMatch(impl.arms, val as int, i) && r.value == impl.arms[i].variant && 0 <= impl.arms[i].disc
  {
    Decode(impl.arms, val as int)
  }

  /** The generated `from_i64`. */
  function FromI64(impl: PrimitiveImpl, val: int64): (r: Option<string>)
    ensures r.None? <==> forall i :: 0 <= i < |impl.arms| ==> impl.arms[i].disc != val as int
    ensures r.Some? ==> exists i :: FirstMatch(impl.arms, val as int, i) && r.value == impl.arms[i].variant
  {
    Decode(impl.arms, val as int)
  }

  /**
   * The generated `to_u64` and `to_i64` (their bodies are the same match):
   * `self`, a variant of the enum, is matched against the arms and the
   * discriminant of its arm is returned. The match is exhaustive, so the
   * result is always `Some`.
   */
  function Encode(arms: seq<Arm>, name: string): (r: Option<int>)
    requires IsVariant(arms, name)
    ensures r.Some?
    ensures exists i :: FirstNamed(arms, name, i) && r.value == arms[i].disc
  {
    if arms[0].variant == name then
      assert FirstNamed(arms, name, 0);
      Some(arms[0].disc)
    else
      assert IsVariant(arms[1..], name) by {
        var i :| 0 <= i < |arms| && arms[i].variant == name;
        assert arms[1..][i - 1].variant == name;
      }
      var r := Encode(arms[1..], name);
      assert exists i :: FirstNamed(arms, name, i) && r.value == arms[i].disc by {
        var i :| FirstNamed(arms[1..], name, i) && r.value == arms[1..][i].disc;
        assert FirstNamed(arms, name, i + 1);
      }
      r
  }

  /**
   * Decode finds the first arm carrying `val`, whatever comes after it. This is
   * Decode's contract restated for a known index, in the form callers use.
   */
  lemma DecodeFirstMatch(arms: seq<Arm>, val: int, i: int)
    requires FirstMatch(arms, val, i)
    ensures Decode(arms, val) == Some(arms[i].variant)
  {
  }

  /**
   * Encode never fails and, since variant names are distinct, gives every
   * variant its own declared discriminant, even when another variant shares it.
   * This is Encode's contract restated for a known index, in the form callers use.
   */
  lemma EncodeOwnDiscriminant(arms: seq<Arm>, i: int)
    requires DistinctNames(arms)
    requires 0 <= i < |arms|
    ensures IsVariant(arms, arms[i].variant)
    ensures Encode(arms, arms[i].variant) == Some(arms[i].disc)
  {
  }

  /**
   * Round trip from a variant: with distinct discriminants, decoding the value
   * a variant encodes to gives that variant back.
   */
  lemma {:induction false} EncodeThenDecode(arms: seq<Arm>, name: string)
    requires DistinctDiscs(arms)
    requires IsVariant(arms, name)
    ensures Decode(arms, Encode(arms, name).value) == Some(name)
  {
    var d := Encode(arms, name).value;
    var i :| FirstNamed(arms, name, i) && d == arms[i].disc;
    assert FirstMatch(arms, d, i);
    DecodeFirstMatch(arms, d, i);
  }

  /**
   * Round trip from a value: whatever variant a value decodes to encodes back
   * to that value. This holds with duplicate discriminants too.
   */
  lemma {:induction false} DecodeThenEncode(arms: seq<Arm>, val: int, name: string)
    requires DistinctNames(arms)
    requires Decode(arms, val) == Some(name)
    ensures IsVariant(arms, name)
    ensures Encode(arms, name) == Some(val)
  {
    var i :| FirstMatch(arms, val, i) && name == arms[i].variant;
    EncodeOwnDiscriminant(arms, i);
  }

  /**
   * Duplicate discriminants: the later of two variants sharing a discriminant
   * is never produced by decoding, whatever the value, yet still encodes to
   * the shared discriminant.
   */
  lemma {:induction false} DuplicateDiscShadowed(arms: seq<Arm>, i: int, j: int)
    requires DistinctNames(arms)
    requires 0 <= i < j < |arms|
    requires arms[i].disc == arms[j].disc
    ensures forall v :: Decode(arms, v) != Some(arms[j].variant)
    ensures Encode(arms, arms[j].variant) == Some(arms[j].disc)
  {
    EncodeOwnDiscriminant(arms, j);
    forall v ensures Decode(arms, v) != Some(arms[j].variant) {
      var r := Decode(arms, v);
      if r.Some? {
        var k :| FirstMatch(arms, v, k) && r.value == arms[k].variant;
        assert k != j;
      }
    }
  }

  /**
   * With distinct variant names, every variant round-trips exactly when the
   * discriminants are distinct: the derive's silence about duplicates is the
   * only way the round trip can break.
   */
  lemma {:induction false} RoundTripIffDistinctDiscs(arms: seq<Arm>)
    requires DistinctNames(arms)
    ensures (forall i :: 0 <= i < |arms| ==> Decode(arms, arms[i].disc) == Some(arms[i].variant))
            <==> DistinctDiscs(arms)
  {
    if DistinctDiscs(arms) {
      forall i | 0 <= i < |arms| ensures Decode(arms, arms[i].disc) == Some(arms[i].variant) {
        EncodeOwnDiscriminant(arms, i);
        EncodeThenDecode(arms, arms[i].variant);
      }
    } else {
      var i, j :| 0 <= i < j < |arms| && arms[i].disc == arms[j].disc;
      DuplicateDiscShadowed(arms, i, j);
      assert Decode(arms, arms[j].disc) != Some(arms[j].variant);
    }
  }

  /** The unsigned and signed decoders agree on every value both widths can hold. */
  lemma SignedUnsignedAgree(impl: PrimitiveImpl, val: int)
    requires 0 <= val < 0x8000_0000_0000_0000
    ensures FromU64(impl, val as uint64) == FromI64(impl, val as int64)
  {
  }

  /**
   * End to end, encoding: in the impl derived from an enum whose variant names
   * are distinct, `to_u64`/`to_i64` of each variant is the discriminant it was
   * declared with.
   */
  lemma DerivedEncodeIsDeclared(ast: Syn.DeriveInput, i: int)
    requires ImplPrimitive(ast).Success?
    requires 0 <= i < |ast.body.variants|
    requires forall j, k :: 0 <= j < k < |ast.body.variants| ==> ast.body.variants[j].ident != ast.body.variants[k].ident
    ensures IsVariant(ImplPrimitive(ast).value.arms, ast.body.variants[i].ident)
    ensures Encode(ImplPrimitive(ast).value.arms, ast.body.variants[i].ident) == ast.body.variants[i].discriminant
  {
    var arms := ImplPrimitive(ast).value.arms;
    assert DistinctNames(arms) by {
      forall j, k | 0 <= j < k < |arms| ensures arms[j].variant != arms[k].variant {
        assert arms[j].variant == ast.body.variants[j].ident;
      }
    }
    EncodeOwnDiscriminant(arms, i);
  }

  /**
   * End to end, decoding: in the derived impl, `from_i64(val)` yields the first
   * declared variant whose discriminant is `val`, and `None` when no variant
   * was declared with `val`.
   */
  lemma DerivedDecodeIsFirstDeclared(ast: Syn.DeriveInput, val: int64)
    requires ImplPrimitive(ast).Success?
    ensures var vs := ast.body.variants;
            var r := FromI64(ImplPrimitive(ast).value, val);
            && (r.None? <==> forall i :: 0 <= i < |vs| ==> vs[i].discriminant != Some(val as int))
            && (r.Some? ==> exists i :: 0 <= i < |vs| && vs[i].discriminant == Some(val as int) && r.value == vs[i].ident
                                        && forall j :: 0 <= j < i ==> vs[j].discriminant != Some(val as int))
  {
    var vs := ast.body.variants;
    var arms := ImplPrimitive(ast).value.arms;
    assert forall i :: 0 <= i < |vs| ==> (vs[i].discriminant == Some(val as int) <==> arms[i].disc == val as int);
  }
}
