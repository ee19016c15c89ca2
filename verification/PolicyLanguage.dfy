// The condition language of policies, evaluated against a JSON-like value.
module PolicyLanguage {
  import opened Options
  import opened JsText
  import opened Inventory

  datatype Operator = Eq | Neq | In | NotIn | Lt | Lte | Gt | Gte | Contains | UnknownOperator

  datatype Condition = Condition(field: JsString, operator: Operator, value: Value)

  // How the JavaScript engine converts an operand to a number (none for NaN)
  // and to a string. Every result below holds for any such conversions.
  datatype Coercions = Coercions(toNumber: Value -> Option<real>, toText: Value -> JsString)

  function Property(v: Value, key: JsString): Value {
    match v
    case Obj(fields) => if key in fields then fields[key] else Undefined
    case Str(s) => if key == Literal("length") then Num(|s| as real) else Undefined
    case Arr(items) => if key == Literal("length") then Num(|items| as real) else Undefined
    case _ => Undefined
  }

  function Walk(v: Value, keys: seq<JsString>): Value
    decreases |keys|
  {
    if keys == [] then v
    else Walk(Property(v, keys[0]), keys[1..])
  }

  function GetField(v: Value, path: JsString): Value {
    Walk(v, Split(path, DOT))
  }

  // A dotted path reads one level after the other, and missing levels stay
  // undefined all the way down.
  lemma NestedPath(v: Value, outer: JsString, inner: JsString)
    ensures GetField(v, outer + [DOT] + inner) == GetField(GetField(v, outer), inner)
    ensures GetField(v, outer) in {Undefined, Null} ==> GetField(v, outer + [DOT] + inner) == Undefined
  {
    SplitAtSeparator(outer, inner, DOT);
    WalkOfConcat(v, Split(outer, DOT), Split(inner, DOT));
    WalkFromNothing(Property(GetField(v, outer), Split(inner, DOT)[0]), Split(inner, DOT)[1..]);
  }

  lemma {:induction false} WalkOfConcat(v: Value, a: seq<JsString>, b: seq<JsString>)
    ensures Walk(v, a + b) == Walk(Walk(v, a), b)
    decreases |a|
  {
    if a == [] {
      assert a + b == b;
    } else {
      assert (a + b)[1..] == a[1..] + b;
      WalkOfConcat(Property(v, a[0]), a[1..], b);
    }
  }

  lemma {:induction false} WalkFromNothing(v: Value, keys: seq<JsString>)
    ensures v == Undefined ==> Walk(v, keys) == Undefined
    decreases |keys|
  {
    if keys != [] {
      WalkFromNothing(Property(v, keys[0]), keys[1..]);
    }
  }

  // The one property of text and lists that is read: their length. Numbers,
  // truth values and nothing have none.
  lemma LengthRead(v: Value)
    ensures v.Str? ==> GetField(v, Literal("length")) == Num(|v.s| as real)
    ensures v.Arr? ==> GetField(v, Literal("length")) == Num(|v.items| as real)
    ensures !v.Str? && !v.Arr? && !v.Obj? ==> forall path :: GetField(v, path) == Undefined
  {
    var key := LengthKey();
    SplitWithoutSeparator(key, DOT);
    assert Walk(v, [key]) == Walk(Property(v, key), []);
    if !v.Str? && !v.Arr? && !v.Obj? {
      forall path ensures GetField(v, path) == Undefined {
        WalkFromNothing(Property(v, Split(path, DOT)[0]), Split(path, DOT)[1..]);
      }
    }
  }

  lemma LengthKey() returns (key: JsString)
    ensures key == Literal("length") && DOT !in key
  {
    key := Literal("length");
  }

  // `===`. Two lists or two objects that come from different rows are never
  // the same object.
  predicate StrictEquals(a: Value, b: Value) {
    a == b && !a.Arr? && !a.Obj?
  }

  predicate Includes(items: seq<Value>, v: Value) {
    exists i :: 0 <= i < |items| && StrictEquals(items[i], v)
  }

  predicate OccursAt(text: JsString, part: JsString, i: nat) {
    i + |part| <= |text| && text[i..i + |part|] == part
  }

  predicate ContainsText(text: JsString, part: JsString) {
    exists i :: 0 <= i <= |text| && OccursAt(text, part, i)
  }

  predicate Compare(js: Coercions, actual: Value, holds: (real, real) -> bool, operand: Value) {
    actual.Num? && js.toNumber(operand).Some? && holds(actual.n, js.toNumber(operand).value)
  }

  predicate EvalCondition(js: Coercions, target: Value, cond: Condition) {
    var actual := GetField(target, cond.field);
    match cond.operator
    case Eq => StrictEquals(actual, cond.value)
    case Neq => !StrictEquals(actual, cond.value)
    case In => cond.value.Arr? && Includes(cond.value.items, actual)
    case NotIn => cond.value.Arr? && !Includes(cond.value.items, actual)
    case Lt => Compare(js, actual, (x: real, y: real) => x < y, cond.value)
    case Lte => Compare(js, actual, (x: real, y: real) => x <= y, cond.value)
    case Gt => Compare(js, actual, (x: real, y: real) => x > y, cond.value)
    case Gte => Compare(js, actual, (x: real, y: real) => x >= y, cond.value)
    case Contains => actual.Str? && ContainsText(actual.s, js.toText(cond.value))
    case UnknownOperator => false
  }

  // `all` must hold throughout; `any`, when given and non-empty, at least once.
  predicate Matches(js: Coercions, target: Value, all: Option<seq<Condition>>, any: Option<seq<Condition>>) {
    && (all.None? || forall c :: c in all.value ==> EvalCondition(js, target, c))
    && (any.None? || any.value == [] || exists c :: c in any.value && EvalCondition(js, target, c))
  }

  // Operators that read as each other's negation are so only on operands of
  // the right type; otherwise both are false.
  lemma OpposedOperators(js: Coercions, target: Value, field: JsString, value: Value)
    ensures EvalCondition(js, target, Condition(field, Neq, value))
       <==> !EvalCondition(js, target, Condition(field, Eq, value))
    ensures (EvalCondition(js, target, Condition(field, In, value))
             <==> !EvalCondition(js, target, Condition(field, NotIn, value)))
       <==> value.Arr?
    ensures (EvalCondition(js, target, Condition(field, Lt, value))
             <==> !EvalCondition(js, target, Condition(field, Gte, value)))
       <==> GetField(target, field).Num? && js.toNumber(value).Some?
    ensures (EvalCondition(js, target, Condition(field, Gt, value))
             <==> !EvalCondition(js, target, Condition(field, Lte, value)))
       <==> GetField(target, field).Num? && js.toNumber(value).Some?
  {
  }

  // The operator that reads as an operator's negation; text search has none.
  function Opposite(op: Operator): Operator {
    match op
    case Eq => Neq
    case Neq => Eq
    case In => NotIn
    case NotIn => In
    case Lt => Gte
    case Gte => Lt
    case Gt => Lte
    case Lte => Gt
    case Contains => UnknownOperator
    case UnknownOperator => UnknownOperator
  }

  function Opposites(conds: seq<Condition>): seq<Condition> {
    seq(|conds|, i requires 0 <= i < |conds| => conds[i].(operator := Opposite(conds[i].operator)))
  }

  // The operands have the type the operator is for.
  predicate WellTyped(js: Coercions, target: Value, cond: Condition) {
    match cond.operator
    case Eq => true
    case Neq => true
    case In => cond.value.Arr?
    case NotIn => cond.value.Arr?
    case Contains => false
    case UnknownOperator => false
    case _ => GetField(target, cond.field).Num? && js.toNumber(cond.value).Some?
  }

  lemma OppositeNegates(js: Coercions, target: Value, cond: Condition)
    requires WellTyped(js, target, cond)
    ensures EvalCondition(js, target, cond.(operator := Opposite(cond.operator))) <==> !EvalCondition(js, target, cond)
  {
    OpposedOperators(js, target, cond.field, cond.value);
  }

  // De Morgan's law for policies: on well-typed operands a list of conditions
  // under `all` fails exactly when their opposites under `any` match - except
  // that an empty list matches both ways.
  lemma AnyOfOppositesNegatesAll(js: Coercions, target: Value, conds: seq<Condition>)
    requires forall c :: c in conds ==> WellTyped(js, target, c)
    ensures Matches(js, target, None, Some(Opposites(conds)))
       <==> conds == [] || !Matches(js, target, Some(conds), None)
  {
    hide EvalCondition, WellTyped, Opposite;
    var opposites := Opposites(conds);
    forall i | 0 <= i < |conds|
      ensures EvalCondition(js, target, opposites[i]) <==> !EvalCondition(js, target, conds[i])
    {
      assert conds[i] in conds;
      OppositeNegates(js, target, conds[i]);
    }
    if i :| 0 <= i < |conds| && !EvalCondition(js, target, conds[i]) {
      assert conds[i] in conds && opposites[i] in opposites;
    }
    if c :| c in opposites && EvalCondition(js, target, c) {
      var i :| 0 <= i < |opposites| && opposites[i] == c;
      assert conds[i] in conds;
    }
  }
}
