/**
 * The slice of JavaScript's value semantics that the server's core relies on:
 * JSON-like values, truthiness (`!!v`, `if (v)`), property reads that throw on
 * `null`/`undefined`, and the object a `reduce` builds by assigning `a[k] = v`
 * in order.
 */
module JsValues {
  import opened Wrappers

  /** A JavaScript number. Finite values are kept exact; IEEE-754 rounding is not modelled. */
  datatype JsNumber = Finite(value: real) | NaN

  datatype JsValue =
    | Undefined
    | Null
    | Bool(b: bool)
    | Num(n: JsNumber)
    | Str(s: string)
    | Arr(items: seq<JsValue>)
    | Obj(props: map<string, JsValue>)

  /** The exceptions the core can raise: reading a property of `null`/`undefined`. */
  datatype JsError = TypeError

  predicate IsNullish(v: JsValue) {
    v.Undefined? || v.Null?
  }

  /** ECMAScript ToBoolean: the value of `!!v`. */
  predicate Truthy(v: JsValue)
    ensures IsNullish(v) ==> !Truthy(v)
    ensures !Truthy(v) <==>
      v in {Undefined, Null, Bool(false), Num(NaN), Num(Finite(0.0)), Str("")}
  {
    match v
    case Undefined => false
    case Null => false
    case Bool(b) => b
    case Num(n) => n.Finite? && n.value != 0.0
    case Str(s) => s != ""
    case Arr(_) => true
    case Obj(_) => true
  }

  /**
   * `v.name` for a value that is not `null` or `undefined`. Only own properties
   * of objects are found: the names the core reads ("type", "sortable", "params",
   * "query", "product_name", "technical_details") are defined by no built-in
   * prototype, so every other value yields `undefined` for them.
   */
  function Prop(v: JsValue, name: string): (r: JsValue)
    requires !IsNullish(v)
    ensures !v.Obj? ==> r == Undefined
    ensures v.Obj? ==> (r != Undefined ==> name in v.props)
    ensures v.Obj? ==> r == Field(v.props, name)
  {
    match v
    case Obj(props) => if name in props then props[name] else Undefined
    case _ => Undefined
  }

  /** Property of a plain object given by its own properties, `undefined` when absent. */
  function Field(props: map<string, JsValue>, name: string): JsValue {
    if name in props then props[name] else Undefined
  }

  /**
   * Names every plain object `{}` inherits from Object.prototype (the accessor
   * `__proto__` aside). Reading `o[name]` for one of these on an object without
   * that own key yields a (truthy) function, not `undefined`.
   */
  const ObjectPrototypeMembers: set<string> := {
    "constructor", "hasOwnProperty", "isPrototypeOf", "propertyIsEnumerable",
    "toLocaleString", "toString", "valueOf",
    "__defineGetter__", "__defineSetter__", "__lookupGetter__", "__lookupSetter__"
  }

  // ---------------------------------------------------------------------------
  // The object built by `xs.reduce((a, x) => { a[k(x)] = v(x); return a; }, {})`:
  // one optional assignment per element, performed in order, later ones winning.
  // ---------------------------------------------------------------------------

  /** Keys that some step assigns. */
  ghost function AssignedKeys<V>(steps: seq<Option<(string, V)>>): set<string> {
    set i | 0 <= i < |steps| && steps[i].Some? :: steps[i].value.0
  }

  /** Step i assigns a key that no later step assigns again. */
  ghost predicate IsLastAssignment<V>(steps: seq<Option<(string, V)>>, i: int) {
    && 0 <= i < |steps|
    && steps[i].Some?
    && forall j :: i < j < |steps| && steps[j].Some? ==> steps[j].value.0 != steps[i].value.0
  }

  function Assign<V>(steps: seq<Option<(string, V)>>): (a: map<string, V>)
    ensures a.Keys == AssignedKeys(steps)
    decreases |steps|
  {
    if |steps| == 0 then map[]
    else
      var front := steps[..|steps| - 1];
      var a := Assign(front);
      assert AssignedKeys(steps) == AssignedKeys(front) +
        (if steps[|steps| - 1].Some? then {steps[|steps| - 1].value.0} else {}) by {
        assert forall i :: 0 <= i < |front| ==> front[i] == steps[i];
      }
      match steps[|steps| - 1]
      case None => a
      case Some((k, v)) => a[k := v]
  }

  /** The value of a key is the one its last assignment stored. */
  lemma {:induction false} AssignLastWins<V>(steps: seq<Option<(string, V)>>, i: int)
    requires IsLastAssignment(steps, i)
    ensures steps[i].value.0 in Assign(steps)
    ensures Assign(steps)[steps[i].value.0] == steps[i].value.1
    decreases |steps|
  {
    var front := steps[..|steps| - 1];
    if i < |steps| - 1 {
      assert IsLastAssignment(front, i) by {
        assert forall j :: 0 <= j < |front| ==> front[j] == steps[j];
      }
      AssignLastWins(front, i);
    }
  }

  /** Every key present has a last assignment, so the keys and AssignLastWins fix the whole map. */
  lemma {:induction false} AssignHasLast<V>(steps: seq<Option<(string, V)>>, k: string)
    requires k in Assign(steps)
    ensures exists i :: IsLastAssignment(steps, i) && steps[i].value.0 == k
    decreases |steps|
  {
    var n := |steps| - 1;
    if steps[n].Some? && steps[n].value.0 == k {
      assert IsLastAssignment(steps, n);
    } else {
      var front := steps[..n];
      assert forall j :: 0 <= j < |front| ==> front[j] == steps[j];
      assert k in Assign(front);
      AssignHasLast(front, k);
      var i :| IsLastAssignment(front, i) && front[i].value.0 == k;
      assert IsLastAssignment(steps, i);
    }
  }
}
