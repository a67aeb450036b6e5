/** The per-module tally of performSearch as the script writes it: an
    object literal `{}` indexed by module name. Such an object inherits the
    members of Object.prototype, so a module whose name is one of them
    ("constructor", "toString", "__proto__", ...) reads a function or an
    object where the tally expects a number or `undefined`. This module
    models those lookups and shows where they part from the map-based tally
    in Matching, which the rest of the model uses. */
module JsObjectCounts {
  import opened Matching

  /** The values a lookup in the tally object can give: `undefined`, a
      number, NaN, or an inherited function or object. */
  datatype JsValue = Undefined | Num(n: int) | NotANumber | Inherited

  /** The names Object.prototype provides to every object literal. */
  predicate IsPrototypeName(k: string) {
    k in {"__proto__", "constructor", "toString", "hasOwnProperty", "isPrototypeOf",
          "propertyIsEnumerable", "toLocaleString", "valueOf",
          "__defineGetter__", "__defineSetter__", "__lookupGetter__", "__lookupSetter__"}
  }

  /** `obj[k]`: an own property first, then an inherited member. */
  function Get(own: map<string, JsValue>, k: string): JsValue {
    if k in own then own[k] else if IsPrototypeName(k) then Inherited else Undefined
  }

  /** `obj[k] = v`: an own property, except that "__proto__" is an accessor
      whose setter ignores a value that is not an object. */
  function Set(own: map<string, JsValue>, k: string, v: JsValue): map<string, JsValue>
    requires v != Inherited
  {
    if k == "__proto__" then own else own[k := v]
  }

  /** Truthiness: `undefined`, 0 and NaN are falsy; functions and objects
      are truthy. */
  predicate Truthy(v: JsValue) {
    match v
    case Undefined => false
    case Num(n) => n != 0
    case NotANumber => false
    case Inherited => true
  }

  /** `x++` on the value read: a number grows by one; anything else
      converts to NaN. */
  function Increment(v: JsValue): JsValue {
    if v.Num? then Num(v.n + 1) else NotANumber
  }

  /** One step of the tally as written:
      `if (!moduleResults[k]) moduleResults[k] = 0; moduleResults[k]++;` */
  function TallyAsWritten(own: map<string, JsValue>, k: string): map<string, JsValue> {
    var reset := if !Truthy(Get(own, k)) then Set(own, k, Num(0)) else own;
    Set(reset, k, Increment(Get(reset, k)))
  }

  /** The own properties of `moduleResults` after the match loop has seen
      the first `i` links. */
  function CountsAsWritten(keys: seq<string>, hits: seq<bool>, i: nat): map<string, JsValue>
    requires |keys| == |hits| && i <= |hits|
  {
    if i == 0 then map[]
    else
      var m := CountsAsWritten(keys, hits, i - 1);
      if hits[i - 1] then TallyAsWritten(m, keys[i - 1]) else m
  }

  /** The module test as written:
      `moduleResults[k] === 0 || !moduleResults[k]`. */
  predicate HiddenAsWritten(own: map<string, JsValue>, k: string) {
    Get(own, k) == Num(0) || !Truthy(Get(own, k))
  }

  /** What a lookup would give if the tally were the map of Matching. */
  function Embed(counts: map<string, nat>, k: string): JsValue {
    if k in counts then Num(counts[k]) else Undefined
  }

  /** Off the prototype names, the object and the map agree at every step:
      a lookup gives the map's count, or `undefined` for a missing key. */
  lemma {:induction false} CountsAgreeOffPrototype(keys: seq<string>, hits: seq<bool>, i: nat, k: string)
    requires |keys| == |hits| && i <= |hits|
    requires !IsPrototypeName(k)
    ensures Get(CountsAsWritten(keys, hits, i), k) == Embed(ModuleCounts(keys, hits, i), k)
  {
    if i > 0 {
      CountsAgreeOffPrototype(keys, hits, i - 1, k);
    }
  }

  /** So for a module whose name is not a prototype name, the module test as
      written hides it exactly when the map-based test does. */
  lemma HiddenAgreesOffPrototype(keys: seq<string>, hits: seq<bool>, i: nat, k: string)
    requires |keys| == |hits| && i <= |hits|
    requires !IsPrototypeName(k)
    ensures HiddenAsWritten(CountsAsWritten(keys, hits, i), k)
        <==> ModuleUnmatched(ModuleCounts(keys, hits, i), k)
  {
    CountsAgreeOffPrototype(keys, hits, i, k);
  }

  /** A module named "constructor" whose one link matches is hidden: the
      inherited function is truthy, so it is not reset to 0, and `++` turns
      it into NaN, which is falsy. The map-based tally keeps it. */
  lemma ConstructorModuleHidden()
    ensures HiddenAsWritten(CountsAsWritten(["constructor"], [true], 1), "constructor")
    ensures !ModuleUnmatched(ModuleCounts(["constructor"], [true], 1), "constructor")
  {
    assert CountsAsWritten(["constructor"], [true], 0) == map[];
    assert Get(map[], "constructor") == Inherited;
  }

  /** A module named "constructor" with two matches is shown, as the map
      shows it: the second visit reads NaN, which is falsy, so the entry is
      reset to 0 and counted up to 1. */
  lemma ConstructorTwiceShown()
    ensures Get(CountsAsWritten(["constructor", "constructor"], [true, true], 2), "constructor") == Num(1)
    ensures !HiddenAsWritten(CountsAsWritten(["constructor", "constructor"], [true, true], 2), "constructor")
    ensures !ModuleUnmatched(ModuleCounts(["constructor", "constructor"], [true, true], 2), "constructor")
  {
    var keys, hits := ["constructor", "constructor"], [true, true];
    assert CountsAsWritten(keys, hits, 0) == map[];
    assert CountsAsWritten(keys, hits, 1) == map["constructor" := NotANumber];
  }

  /** A module named "constructor" without any match stays visible, as
      "toString" does: the inherited function is truthy. The map-based
      tally hides it. */
  lemma ConstructorUnmatchedShown()
    ensures !HiddenAsWritten(CountsAsWritten(["constructor"], [false], 1), "constructor")
    ensures ModuleUnmatched(ModuleCounts(["constructor"], [false], 1), "constructor")
  {
    assert CountsAsWritten(["constructor"], [false], 1) == map[];
  }

  /** A module named "toString" without any match stays visible: the
      inherited function is truthy and is not `=== 0`. The map-based tally
      hides it. */
  lemma ToStringModuleShown()
    ensures !HiddenAsWritten(CountsAsWritten(["toString"], [false], 1), "toString")
    ensures ModuleUnmatched(ModuleCounts(["toString"], [false], 1), "toString")
  {
    assert CountsAsWritten(["toString"], [false], 1) == map[];
  }

  /** A module named "__proto__" is never hidden, matched or not: the setter
      drops the numbers, and the inherited prototype object is truthy. */
  lemma ProtoModuleNeverHidden(keys: seq<string>, hits: seq<bool>, i: nat)
    requires |keys| == |hits| && i <= |hits|
    ensures "__proto__" !in CountsAsWritten(keys, hits, i)
    ensures !HiddenAsWritten(CountsAsWritten(keys, hits, i), "__proto__")
  {
    ProtoNeverOwn(keys, hits, i);
  }

  lemma {:induction false} ProtoNeverOwn(keys: seq<string>, hits: seq<bool>, i: nat)
    requires |keys| == |hits| && i <= |hits|
    ensures "__proto__" !in CountsAsWritten(keys, hits, i)
  {
    if i > 0 {
      ProtoNeverOwn(keys, hits, i - 1);
    }
  }
}
