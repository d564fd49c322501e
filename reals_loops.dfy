/**
 * The append loops of reals.go written as loops: the operand loop of
 * `sum.Simplify` and `product.Simplify`, and the rendering loops of
 * `sum.String` and `product.String`. Each is proved to compute the
 * function of the same name in Reals that the rest of the model uses.
 */
module RealLoops {
  import Text
  import opened Reals
  import RealLaws

  /** Simplifies each operand in order; the first panic or exhaustion ends the loop. */
  method SimplifyOperands(ops: seq<Real>, fuel: nat) returns (r: Outcome<seq<Real>>)
    ensures r == SimplifyAll(ops, fuel)
    ensures r.Done? ==> |r.value| == |ops|
  {
    var simplified: seq<Real> := [];
    var i := 0;
    while i < |ops|
      invariant 0 <= i <= |ops| && |simplified| == i
      invariant forall j :: 0 <= j < i ==> Simplify(ops[j], fuel) == Done(simplified[j])
    {
      var s := Simplify(ops[i], fuel);
      if !s.Done? {
        RealLaws.SimplifyAllFailure(ops, fuel, i);
        return if s.Panic? then Panic else OutOfFuel;
      }
      simplified := simplified + [s.value];
      i := i + 1;
    }
    RealLaws.SimplifyAllSpec(ops, fuel);
    assert SimplifyAll(ops, fuel).value == simplified;
    return Done(simplified);
  }

  /** Renders each operand of a sum and joins them with " + ". */
  method SumString(x: Real) returns (s: string)
    requires x.Sum?
    ensures s == String(x)
  {
    var parts: seq<string> := [];
    var i := 0;
    while i < |x.operands|
      invariant 0 <= i <= |x.operands|
      invariant parts == OperandStrings(x)[..i]
    {
      parts := parts + [String(x.operands[i])];
      i := i + 1;
    }
    assert parts == OperandStrings(x);
    s := Text.Join(parts, " + ");
  }

  /** Renders each factor of a product, a sum in parentheses, and joins them with " ". */
  method ProductString(x: Real) returns (s: string)
    requires x.Product?
    ensures s == String(x)
  {
    var parts: seq<string> := [];
    var i := 0;
    while i < |x.operands|
      invariant 0 <= i <= |x.operands|
      invariant parts == FactorStrings(x)[..i]
    {
      var o := x.operands[i];
      var part := if o.Sum? then "(" + String(o) + ")" else String(o);
      parts := parts + [part];
      i := i + 1;
    }
    assert parts == FactorStrings(x);
    s := Text.Join(parts, " ");
  }
}
