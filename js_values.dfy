/**
 * The slice of JavaScript value semantics the core relies on: truthiness and the
 * short-circuiting `||` operator, which returns an operand rather than a boolean.
 */
module JsValues {

  /**
   * A JSON-shaped JavaScript value. `Undefined` stands for a missing property. The core
   * never looks inside an object or array, so `Composite` carries only its identity.
   */
  datatype JsValue = Undefined | Null | Bool(b: bool) | Num(n: real) | Str(s: string) | Composite(ref: nat)

  /** JavaScript truthiness. NaN cannot arise from JSON and is not modelled. */
  predicate Truthy(v: JsValue) {
    match v
    case Undefined => false
    case Null => false
    case Bool(b) => b
    case Num(n) => n != 0.0
    case Str(s) => s != ""
    case Composite(_) => true
  }

  /** True when `vs[i]` is the first truthy operand of the chain. */
  predicate FirstTruthyAt(vs: seq<JsValue>, i: int) {
    0 <= i < |vs| && Truthy(vs[i]) && forall j :: 0 <= j < i ==> !Truthy(vs[j])
  }

  /**
   * `vs[0] || vs[1] || ... || vs[n-1]`: the first truthy operand, or the last operand
   * when none is truthy.
   */
  function OrChain(vs: seq<JsValue>): (r: JsValue)
    requires |vs| > 0
    ensures r in vs
    ensures Truthy(r) <==> exists i :: 0 <= i < |vs| && Truthy(vs[i])
    ensures forall i :: FirstTruthyAt(vs, i) ==> r == vs[i]
    ensures (forall i :: 0 <= i < |vs| ==> !Truthy(vs[i])) ==> r == vs[|vs| - 1]
  {
    if |vs| == 1 || Truthy(vs[0]) then vs[0]
    else
      var r := OrChain(vs[1..]);
      assert forall i :: FirstTruthyAt(vs, i) ==> i > 0 && FirstTruthyAt(vs[1..], i - 1);
      r
  }
}
