/** The constant folders of the MLIR Shape dialect and its four type keywords.

    A constant shape (a DenseIntElementsAttr of index type) is a sequence of
    int64 extents; a constant operand that is absent (a null Attribute) is
    `None`.  A witness attribute (a BoolAttr) is a `bool`.  A fold that gives
    up returns `None`, as the C++ folders return a null OpFoldResult. */
module ShapeDialect {
  import opened Wrappers

  /** The extents of a constant shape. */
  type Shape = seq<int>

  predicate IsInt64(x: int) { -TWO_63 <= x < TWO_63 }

  // ---------------------------------------------------------------------
  // Types and their keywords

  datatype ShapeType = ShapeTy | SizeTy | ValueShapeTy | WitnessTy

  datatype ParseError =
    | ExpectedKeyword                   // the parser found no keyword at all
    | UnknownShapeType(keyword: string) // "unknown shape type: <keyword>"

  datatype ParsedType = Parsed(ty: ShapeType) | NullType(error: ParseError)

  const Keywords: set<string> := {"shape", "size", "value_shape", "witness"}

  /** printType: the keyword of each type. */
  function PrintType(t: ShapeType): (keyword: string)
    ensures keyword in Keywords
  {
    match t
    case ShapeTy => "shape"
    case SizeTy => "size"
    case ValueShapeTy => "value_shape"
    case WitnessTy => "witness"
  }

  /** parseType.  `keyword` is what parseKeyword read, `None` when it read
      nothing; every failure yields a null type. */
  function ParseType(keyword: Option<string>): (r: ParsedType)
    ensures r.Parsed? <==> keyword.Some? && keyword.value in Keywords
    ensures keyword.None? ==> r == NullType(ExpectedKeyword)
    ensures keyword.Some? && keyword.value !in Keywords ==>
              r == NullType(UnknownShapeType(keyword.value))
  {
    match keyword
    case None => NullType(ExpectedKeyword)
    case Some(k) =>
      if k == "shape" then Parsed(ShapeTy)
      else if k == "size" then Parsed(SizeTy)
      else if k == "value_shape" then Parsed(ValueShapeTy)
      else if k == "witness" then Parsed(WitnessTy)
      else NullType(UnknownShapeType(k))
  }

  /** Printing a type and parsing the keyword back gives the same type. */
  lemma PrintThenParse(t: ShapeType)
    ensures ParseType(Some(PrintType(t))) == Parsed(t)
  {
  }

  /** A keyword the parser accepts is printed back unchanged. */
  lemma ParseThenPrint(keyword: string)
    requires ParseType(Some(keyword)).Parsed?
    ensures PrintType(ParseType(Some(keyword)).ty) == keyword
  {
  }

  // ---------------------------------------------------------------------
  // ConcatOp, SplitAtOp, RankOp

  /** ConcatOp::fold: both operands constant, lhs extents then rhs extents. */
  function ConcatFold(lhs: Option<Shape>, rhs: Option<Shape>): (r: Option<Shape>)
    ensures r.Some? <==> lhs.Some? && rhs.Some?
    ensures r.Some? ==>
              |r.value| == |lhs.value| + |rhs.value| &&
              r.value[..|lhs.value|] == lhs.value && r.value[|lhs.value|..] == rhs.value
  {
    if lhs.None? || rhs.None? then None else Some(lhs.value + rhs.value)
  }

  /** SplitAtOp::fold: both operands constant and -rank <= split <= rank; a
      negative split point counts from the back.  The results are the
      take_front and drop_front of the shape at that point. */
  function SplitAtFold(shape: Option<Shape>, split: Option<int>): (r: Option<(Shape, Shape)>)
    ensures r.Some? <==>
              shape.Some? && split.Some? && -|shape.value| <= split.value <= |shape.value|
    ensures r.Some? ==> r.value.0 + r.value.1 == shape.value
    ensures r.Some? ==>
              |r.value.0| == if split.value < 0 then split.value + |shape.value| else split.value
  {
    if shape.None? || split.None? then None
    else
      var s, rank, k := shape.value, |shape.value|, split.value;
      if !(-rank <= k && k <= rank) then None
      else
        var point := if k < 0 then k + rank else k;
        Some((s[..point], s[point..]))
  }

  /** Splitting a concatenation at the length of its left part gives the two
      parts back. */
  lemma ConcatThenSplit(a: Shape, b: Shape)
    ensures SplitAtFold(ConcatFold(Some(a), Some(b)), Some(|a|)) == Some((a, b))
  {
    var c := ConcatFold(Some(a), Some(b)).value;
    assert c[..|a|] == a && c[|a|..] == b;
  }

  /** Concatenating the two results of a split gives the shape back. */
  lemma SplitThenConcat(s: Shape, k: int)
    requires SplitAtFold(Some(s), Some(k)).Some?
    ensures var parts := SplitAtFold(Some(s), Some(k)).value;
            ConcatFold(Some(parts.0), Some(parts.1)) == Some(s)
  {
  }

  /** A negative split point -n means the same as rank - n. */
  lemma NegativeSplitFromBack(s: Shape, k: int)
    requires 0 <= k < |s|
    ensures SplitAtFold(Some(s), Some(k - |s|)) == SplitAtFold(Some(s), Some(k))
  {
  }

  /** RankOp::fold: the number of extents of a constant shape. */
  function RankFold(shape: Option<Shape>): (r: Option<int>)
    ensures r.Some? <==> shape.Some?
    ensures r.Some? ==> r.value == |shape.value|
  {
    match shape
    case None => None
    case Some(s) => Some(|s|)
  }

  /** The rank of a concatenation is the sum of the ranks. */
  lemma RankOfConcat(a: Option<Shape>, b: Option<Shape>)
    requires a.Some? && b.Some?
    ensures RankFold(ConcatFold(a, b)).value == RankFold(a).value + RankFold(b).value
  {
  }

  // ---------------------------------------------------------------------
  // GetExtentOp

  /** Where the dim operand of get_extent comes from. */
  datatype DimSource =
    | ConstSize(attr: int)     // a shape.const_size of an index attribute
    | ConstantIndex(attr: int) // a std.constant of an index attribute
    | NonConstantDim

  /** getConstantDim: a const_size is read as an unsigned 64-bit value
      (getLimitedValue) and stored in an int64_t; a std.constant is read as
      a signed value.  Both give the attribute's value back. */
  function ConstantDim(d: DimSource): (r: Option<int>)
    ensures r.Some? <==> !d.NonConstantDim?
    ensures r.Some? ==> IsInt64(r.value)
    ensures r.Some? && IsInt64(d.attr) ==> r.value == d.attr
  {
    match d
    case ConstSize(v) => Some(S64(U64(v)))
    case ConstantIndex(v) => Some(S64(v))
    case NonConstantDim => None
  }

  /** What a get_extent fold can produce: nothing, an extent, or a read of
      element `index` of a shape that has no such element (undefined in the
      C++). */
  datatype ExtentFold = NoFold | Extent(value: int) | OutOfBounds(index: int)

  /** GetExtentOp::fold as written: only dim >= rank is refused, and the dim
      is then cast to uint64_t to index the elements. */
  function GetExtentFoldAsWritten(shape: Option<Shape>, dim: Option<int>): (r: ExtentFold)
    requires dim.Some? ==> IsInt64(dim.value)
    requires shape.Some? ==> |shape.value| < TWO_63
    ensures r.OutOfBounds? <==> shape.Some? && dim.Some? && dim.value < 0
    ensures r.Extent? <==> shape.Some? && dim.Some? && 0 <= dim.value < |shape.value|
    ensures r.Extent? ==> r.value == shape.value[dim.value]
  {
    if shape.None? || dim.None? then NoFold
    else if dim.value >= |shape.value| then NoFold
    else
      var index := U64(dim.value);
      if index < |shape.value| then Extent(shape.value[index]) else OutOfBounds(index)
  }

  /** The unguarded case: dim = -1 on a one-extent shape reads element
      2^64 - 1. */
  lemma GetExtentNegativeDimReadsOutOfBounds()
    ensures GetExtentFoldAsWritten(Some([4]), Some(-1)) == OutOfBounds(TWO_64 - 1)
  {
  }

  /** GetExtentOp::fold with the guard 0 <= dim < rank, which the rest of the
      model uses. */
  function GetExtentFold(shape: Option<Shape>, dim: Option<int>): (r: ExtentFold)
    ensures !r.OutOfBounds?
    ensures r.Extent? <==> shape.Some? && dim.Some? && 0 <= dim.value < |shape.value|
    ensures r.Extent? ==> r.value == shape.value[dim.value]
  {
    if shape.None? || dim.None? then NoFold
    else if dim.value < 0 || dim.value >= |shape.value| then NoFold
    else Extent(shape.value[dim.value])
  }

  /** The corrected fold agrees with the original on every non-negative dim. */
  lemma GetExtentGuardOnlyAddsNegativeCase(shape: Option<Shape>, dim: Option<int>)
    requires dim.Some? ==> IsInt64(dim.value)
    requires shape.Some? ==> |shape.value| < TWO_63
    requires dim.Some? ==> dim.value >= 0
    ensures GetExtentFold(shape, dim) == GetExtentFoldAsWritten(shape, dim)
  {
  }

  /** Reading an extent of the right part of a concatenation. */
  lemma GetExtentOfConcat(a: Shape, b: Shape, i: int)
    requires 0 <= i < |b|
    ensures GetExtentFold(ConcatFold(Some(a), Some(b)), Some(|a| + i)) == Extent(b[i])
  {
    var c := ConcatFold(Some(a), Some(b)).value;
    assert c[|a|..][i] == b[i];
  }

  // ---------------------------------------------------------------------
  // NumElementsOp

  /** The mathematical product of the extents. */
  function Product(s: Shape): int
  {
    if s == [] then 1 else Product(s[..|s| - 1]) * s[|s| - 1]
  }

  lemma MulMod(a: int, b: int)
    ensures (a % TWO_64) * (b % TWO_64) % TWO_64 == a * b % TWO_64
  {
    var qa, ra := a / TWO_64, a % TWO_64;
    var qb, rb := b / TWO_64, b % TWO_64;
    calc {
      a * b;
      (qa * TWO_64 + ra) * (qb * TWO_64 + rb);
      (qa * qb * TWO_64 + qa * rb + ra * qb) * TWO_64 + ra * rb;
    }
    ShiftMod(qa * qb * TWO_64 + qa * rb + ra * qb, ra * rb);
  }

  lemma ShiftMod(k: int, x: int)
    ensures (k * TWO_64 + x) % TWO_64 == x % TWO_64
  {
  }

  /** NumElementsOp::fold: a 64-bit APInt starting at 1 is multiplied by
      every extent, wrapping modulo 2^64, and read back as an int64 index.
      The result is the two's-complement truncation of the true product. */
  method NumElementsFold(shape: Option<Shape>) returns (r: Option<int>)
    ensures r.Some? <==> shape.Some?
    ensures r.Some? ==> r.value == S64(Product(shape.value))
  {
    if shape.None? {
      return None;
    }
    var s := shape.value;
    var product := 1;
    var i := 0;
    while i < |s|
      invariant 0 <= i <= |s|
      invariant product == Product(s[..i]) % TWO_64
    {
      MulMod(Product(s[..i]), s[i]);
      assert s[..i + 1][..i] == s[..i];
      product := product * U64(s[i]) % TWO_64;
      i := i + 1;
    }
    assert s[..|s|] == s;
    r := Some(S64(product));
  }

  /** An empty shape has one element. */
  lemma NumElementsOfEmpty()
    ensures S64(Product([])) == 1
  {
  }

  /** Without wrap-around the fold gives the true product. */
  lemma NumElementsExact(s: Shape)
    requires IsInt64(Product(s))
    ensures S64(Product(s)) == Product(s)
  {
  }

  /** The element count of a concatenation is the product of the counts. */
  lemma {:induction false} ProductOfConcat(a: Shape, b: Shape)
    ensures Product(a + b) == Product(a) * Product(b)
    decreases |b|
  {
    if b == [] {
      assert a + b == a;
    } else {
      var b' := b[..|b| - 1];
      assert (a + b)[..|a + b| - 1] == a + b';
      ProductOfConcat(a, b');
    }
  }

  // ---------------------------------------------------------------------
  // FromExtentsOp

  /** FromExtentsOp::fold: no fold unless every extent is constant, then the
      extents in operand order. */
  method FromExtentsFold(operands: seq<Option<int>>) returns (r: Option<Shape>)
    ensures r.Some? <==> forall i :: 0 <= i < |operands| ==> operands[i].Some?
    ensures r.Some? ==>
              |r.value| == |operands| &&
              forall i :: 0 <= i < |operands| ==> r.value[i] == operands[i].value
  {
    if exists i :: 0 <= i < |operands| && operands[i].None? {
      return None;
    }
    var extents: Shape := [];
    for i := 0 to |operands|
      invariant |extents| == i
      invariant forall j :: 0 <= j < i ==> extents[j] == operands[j].value
    {
      extents := extents + [operands[i].value];
    }
    r := Some(extents);
  }

  // ---------------------------------------------------------------------
  // ShapeEqOp, CstrEqOp, CstrBroadcastableOp

  /** ShapeEqOp::fold: lhs == rhs, only when both shapes are constant. */
  function ShapeEqFold(lhs: Option<Shape>, rhs: Option<Shape>): (r: Option<bool>)
    ensures r.Some? <==> lhs.Some? && rhs.Some?
    ensures r.Some? ==> (r.value <==> lhs.value == rhs.value)
  {
    if lhs.None? || rhs.None? then None else Some(lhs.value == rhs.value)
  }

  /** CstrEqOp::fold: a passing witness when every operand is constant and
      equal to the first (so also with no operands at all); never a failing
      witness. */
  function CstrEqFold(operands: seq<Option<Shape>>): (r: Option<bool>)
    ensures r != Some(false)
    ensures r == Some(true) <==>
              forall i :: 0 <= i < |operands| ==> operands[i].Some? && operands[i] == operands[0]
  {
    if forall i :: 0 <= i < |operands| ==> operands[i].Some? && operands[i] == operands[0]
    then Some(true)
    else None
  }

  /** On two operands, cstr_eq passes exactly when shape_eq folds to true. */
  lemma CstrEqAgreesWithShapeEq(a: Option<Shape>, b: Option<Shape>)
    ensures CstrEqFold([a, b]) == Some(true) <==> ShapeEqFold(a, b) == Some(true)
  {
    assert [a, b][1] == b;
    if ShapeEqFold(a, b) == Some(true) {
      assert forall i :: 0 <= i < 2 ==> [a, b][i].Some? && [a, b][i] == [a, b][0];
    }
  }

  /** The value that defines a shape operand, as far as getShapeVec looks. */
  datatype ShapeSource =
    | ShapeOfRanked(dims: Shape) // shape.shape_of of a ranked tensor
    | ShapeOfUnranked            // shape.shape_of of an unranked tensor
    | ConstShape(extents: Shape) // shape.const_shape
    | OtherShape

  /** getShapeVec: the extents known from the defining op, if any. */
  function GetShapeVec(v: ShapeSource): (r: Option<Shape>)
    ensures r.Some? <==> v.ShapeOfRanked? || v.ConstShape?
  {
    match v
    case ShapeOfRanked(dims) => Some(dims)
    case ConstShape(extents) => Some(extents)
    case _ => None
  }

  /** CstrBroadcastableOp::fold.  `knownBroadcastable` stands for
      OpTrait::util::staticallyKnownBroadcastable, which is not part of this
      model. */
  function CstrBroadcastableFold(lhsAttr: Option<Shape>, rhsAttr: Option<Shape>,
                                 lhs: ShapeSource, rhs: ShapeSource,
                                 knownBroadcastable: (Shape, Shape) -> bool): (r: Option<bool>)
    ensures r != Some(false)
    ensures lhsAttr == Some([]) || rhsAttr == Some([]) ==> r == Some(true)
    ensures r == Some(true) <==>
              lhsAttr == Some([]) || rhsAttr == Some([]) ||
              (lhsAttr.Some? && rhsAttr.Some? && knownBroadcastable(lhsAttr.value, rhsAttr.value)) ||
              (GetShapeVec(lhs).Some? && GetShapeVec(rhs).Some? &&
               knownBroadcastable(GetShapeVec(lhs).value, GetShapeVec(rhs).value))
  {
    if lhsAttr.Some? && |lhsAttr.value| == 0 then Some(true)
    else if rhsAttr.Some? && |rhsAttr.value| == 0 then Some(true)
    else if lhsAttr.Some? && rhsAttr.Some? && knownBroadcastable(lhsAttr.value, rhsAttr.value)
    then Some(true)
    else
      var l := GetShapeVec(lhs);
      if l.None? then None
      else
        var r := GetShapeVec(rhs);
        if r.None? then None
        else if knownBroadcastable(l.value, r.value) then Some(true)
        else None
  }

  // ---------------------------------------------------------------------
  // AssumingAllOp

  /** A witness operand: a constant (passing or failing) or a value only
      known at run time, named by `id`. */
  datatype Witness = ConstWitness(passing: bool) | DynamicWitness(id: nat)

  /** What the fold of assuming_all over `ops` returns, and how many
      operands it leaves on the op: it walks from the last operand down,
      stops without folding (keeping the operand) at the first dynamic
      witness, stops with `false` (erasing it) at the first failing one. */
  function AssumingAllOutcome(ops: seq<Witness>): (r: (Option<bool>, nat))
    ensures r.1 <= |ops|
  {
    if ops == [] then (Some(true), 0)
    else match ops[|ops| - 1]
      case DynamicWitness(_) => (None, |ops|)
      case ConstWitness(p) =>
        if !p then (Some(false), |ops| - 1) else AssumingAllOutcome(ops[..|ops| - 1])
  }

  /** The run-time meaning of assuming_all: every witness passes. */
  predicate AllPass(ops: seq<Witness>, holds: nat -> bool)
  {
    forall i :: 0 <= i < |ops| ==>
      match ops[i]
      case ConstWitness(p) => p
      case DynamicWitness(id) => holds(id)
  }

  /** The fold keeps a prefix of the operands, and only erases constants. */
  lemma {:induction false} AssumingAllErasesOnlyConstants(ops: seq<Witness>)
    ensures AssumingAllOutcome(ops).1 <= |ops|
    ensures forall i :: AssumingAllOutcome(ops).1 <= i < |ops| ==> ops[i].ConstWitness?
  {
    if ops != [] && ops[|ops| - 1] == ConstWitness(true) {
      AssumingAllErasesOnlyConstants(ops[..|ops| - 1]);
    }
  }

  /** The fold passes exactly when every operand is a passing constant. */
  lemma {:induction false} AssumingAllPassesIffAllTrue(ops: seq<Witness>)
    ensures AssumingAllOutcome(ops).0 == Some(true) <==>
              forall i :: 0 <= i < |ops| ==> ops[i] == ConstWitness(true)
  {
    if ops != [] && ops[|ops| - 1] == ConstWitness(true) {
      AssumingAllPassesIffAllTrue(ops[..|ops| - 1]);
    }
  }

  /** The fold fails exactly when some operand is a failing constant and
      every operand after it is a passing constant. */
  lemma {:induction false} AssumingAllFailsIffLastNonPassingIsFalse(ops: seq<Witness>)
    ensures AssumingAllOutcome(ops).0 == Some(false) <==>
              exists j :: 0 <= j < |ops| && ops[j] == ConstWitness(false) &&
                          forall k :: j < k < |ops| ==> ops[k] == ConstWitness(true)
  {
    if ops != [] {
      var last := |ops| - 1;
      if ops[last] == ConstWitness(true) {
        var front := ops[..last];
        AssumingAllFailsIffLastNonPassingIsFalse(front);
        if exists j :: 0 <= j < |ops| && ops[j] == ConstWitness(false) &&
                        forall k :: j < k < |ops| ==> ops[k] == ConstWitness(true) {
          var j :| 0 <= j < |ops| && ops[j] == ConstWitness(false) &&
                   forall k :: j < k < |ops| ==> ops[k] == ConstWitness(true);
          assert front[j] == ConstWitness(false);
        }
      } else if ops[last].DynamicWitness? {
        forall j | 0 <= j < |ops| && ops[j] == ConstWitness(false)
          ensures exists k :: j < k < |ops| && ops[k] != ConstWitness(true)
        {
          assert ops[last] != ConstWitness(true);
        }
      }
    }
  }

  /** The fold is sound: a folded value is the run-time meaning whatever the
      dynamic witnesses turn out to be, and erasing operands never changes
      that meaning. */
  lemma {:induction false} AssumingAllFoldIsSound(ops: seq<Witness>, holds: nat -> bool)
    ensures AssumingAllOutcome(ops).0.Some? ==>
              (AssumingAllOutcome(ops).0.value <==> AllPass(ops, holds))
    ensures AssumingAllOutcome(ops).0.None? ==>
              (AllPass(ops[..AssumingAllOutcome(ops).1], holds) <==> AllPass(ops, holds))
  {
    if ops != [] {
      var last := |ops| - 1;
      var front := ops[..last];
      if ops[last] == ConstWitness(true) {
        AssumingAllFoldIsSound(front, holds);
        assert AllPass(ops, holds) <==> AllPass(front, holds) by {
          if AllPass(front, holds) {
            forall i | 0 <= i < |ops|
              ensures match ops[i] case ConstWitness(p) => p case DynamicWitness(id) => holds(id)
            {
              if i < last { assert ops[i] == front[i]; }
            }
          }
        }
        var n := AssumingAllOutcome(front).1;
        assert ops[..n] == front[..n];
      } else if ops[last] == ConstWitness(false) {
        assert !AllPass(ops, holds) by {
          assert !(match ops[last] case ConstWitness(p) => p case DynamicWitness(id) => holds(id));
        }
      } else {
        assert ops[..|ops|] == ops;
      }
    }
  }

  /** An assuming_all operation whose operand list the fold edits in place. */
  class AssumingAllOp {
    var operands: seq<Witness>

    constructor (operands: seq<Witness>)
      ensures this.operands == operands
    {
      this.operands := operands;
    }

    /** verify(AssumingAllOp): an op with no operands is rejected. */
    function Verify(): (ok: bool)
      reads this
      ensures ok <==> |operands| != 0
    {
      |operands| != 0
    }

    /** AssumingAllOp::fold: the reverse walk over the constant operands,
        erasing each constant it handles. */
    method Fold() returns (r: Option<bool>)
      modifies this
      ensures (r, |operands|) == AssumingAllOutcome(old(operands))
      ensures operands == old(operands)[..|operands|]
    {
      var attrs := operands;
      var idx := |attrs| - 1;
      while idx >= 0
        invariant -1 <= idx < |attrs|
        invariant operands == attrs[..idx + 1]
        invariant AssumingAllOutcome(attrs) == AssumingAllOutcome(attrs[..idx + 1])
      {
        var a := attrs[idx];
        if a.DynamicWitness? {
          return None;
        }
        operands := operands[..idx] + operands[idx + 1..];
        assert attrs[..idx + 1][..idx] == attrs[..idx];
        if !a.passing {
          return Some(false);
        }
        idx := idx - 1;
      }
      assert attrs[..0] == [];
      r := Some(true);
    }
  }
}
