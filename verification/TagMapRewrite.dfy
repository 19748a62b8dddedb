/** The planner support functions `rewrite_fn_call_to_subquery` and `tag_map_rewrite`, as
    transformations of expression trees, with a three-valued evaluator to say what they preserve. */
module TagMapRewrite {
  import opened Wrappers
  import opened IterableJsonb
  import opened TagMap

  datatype Value =
    | SqlNull
    | Boolean(b: bool)
    | Text(s: string)
    | Jsonb(j: Json)
    | StoredMap(m: map<nat, nat>)
    | Fields(fields: map<string, Json>)
    | StoredMaps(maps: set<map<nat, nat>>)

  datatype Expr =
    | Const(value: Value)
    | Var(attr: nat)
    | CoerceToDomain(arg: Expr)
    | RelabelType(arg: Expr)
    | OpExpr(op: string, func: string, supported: bool, args: seq<Expr>)
    | FuncExpr(func: string, supported: bool, args: seq<Expr>)
    | ContainsAny(args: seq<Expr>)
    | SubLink(select: Expr)
    | And(left: Expr, right: Expr)
    | Or(left: Expr, right: Expr)
    | Not(arg: Expr)

  type Row = map<nat, Value>

  /** The tag table, and the meaning of all functions that play no part here. */
  datatype Env = Env(catalog: Catalog, other: (string, seq<Value>) -> Value)

  // ---------- evaluation ----------

  ghost function Denormalize(c: Catalog, m: map<nat, nat>): map<string, Json> {
    var keys := set t | t in c.tags && Joined(c, m, t) :: t.key;
    map k | k in keys && Field(c, m, k).Some? :: Field(c, m, k).value
  }

  ghost function ObjectField(obj: Value, key: Value): Value {
    if obj.Fields? && key.Text? && key.s in obj.fields then Jsonb(obj.fields[key.s]) else SqlNull
  }

  ghost function Compare(equal: bool, a: Value, b: Value): Value {
    if a.Jsonb? && b.Jsonb? then Boolean(Same(a.j, b.j) == equal) else SqlNull
  }

  ghost function Call(env: Env, func: string, args: seq<Value>): Value {
    var c := env.catalog;
    if func == "tag_map_denormalize" && |args| == 1 then
      (if args[0].StoredMap? && Denormalize(c, args[0].m) != map[] then Fields(Denormalize(c, args[0].m)) else SqlNull)
    else if func in {"tag_map_object_field", "jsonb_object_field"} && |args| == 2 then ObjectField(args[0], args[1])
    else if func == "tag_v_eq" && |args| == 2 then Compare(true, args[0], args[1])
    else if func == "tag_v_ne" && |args| == 2 then Compare(false, args[0], args[1])
    else if func == "jsonb_contains" && |args| == 2 then
      (if args[0].StoredMap? && args[1].StoredMap? then Boolean(Contains(args[0].m, args[1].m)) else SqlNull)
    else if func == "tag_v_eq_matching_tags" && |args| == 2 then
      (if args[0].Text? && args[1].Jsonb? && EqMatchingTags(c, args[0].s, args[1].j).Some?
       then StoredMap(EqMatchingTags(c, args[0].s, args[1].j).value) else SqlNull)
    else if func == "tag_v_ne_matching_tags" && |args| == 2 then
      StoredMaps(if args[0].Text? && args[1].Jsonb? then NeMatchingTags(c, args[0].s, args[1].j) else {})
    else env.other(func, args)
  }

  /** `scalar @> ANY (array)` */
  ghost function AnyContained(scalar: Value, array_: Value): Value {
    if !array_.StoredMaps? then SqlNull
    else if array_.maps == {} then Boolean(false)
    else if !scalar.StoredMap? then SqlNull
    else Boolean(exists part | part in array_.maps :: Contains(scalar.m, part))
  }

  ghost function Eval(env: Env, row: Row, e: Expr): Value {
    match e
    case Const(v) => v
    case Var(a) => if a in row then row[a] else SqlNull
    case CoerceToDomain(arg) => Eval(env, row, arg)
    case RelabelType(arg) => Eval(env, row, arg)
    case OpExpr(_, func, _, args) => Call(env, func, seq(|args|, i requires 0 <= i < |args| => Eval(env, row, args[i])))
    case FuncExpr(func, _, args) => Call(env, func, seq(|args|, i requires 0 <= i < |args| => Eval(env, row, args[i])))
    case ContainsAny(args) =>
      if |args| == 2 then AnyContained(Eval(env, row, args[0]), Eval(env, row, args[1])) else SqlNull
    // An uncorrelated subquery is evaluated once, without a row.
    case SubLink(select) => Eval(env, map[], select)
    case And(l, r) =>
      var a, b := Eval(env, row, l), Eval(env, row, r);
      if a == Boolean(false) || b == Boolean(false) then Boolean(false)
      else if a == Boolean(true) && b == Boolean(true) then Boolean(true) else SqlNull
    case Or(l, r) =>
      var a, b := Eval(env, row, l), Eval(env, row, r);
      if a == Boolean(true) || b == Boolean(true) then Boolean(true)
      else if a == Boolean(false) && b == Boolean(false) then Boolean(false) else SqlNull
    case Not(arg) =>
      var a := Eval(env, row, arg);
      if a.Boolean? then Boolean(!a.b) else SqlNull
  }

  ghost predicate Selects(env: Env, row: Row, e: Expr) {
    Eval(env, row, e) == Boolean(true)
  }

  // ---------- rewrite_fn_call_to_subquery ----------

  /** The support functions do nothing without a planner root or inside a subquery. */
  datatype Planner = Planner(hasRoot: bool, queryLevel: nat) {
    predicate Active() { hasRoot && queryLevel <= 1 }
  }

  predicate ArgCanBePutIntoSubquery(arg: Expr) {
    match arg
    case Const(_) => true
    case CoerceToDomain(inner) => ArgCanBePutIntoSubquery(inner)
    case _ => false
  }

  function RewriteFnCallToSubquery(planner: Planner, call: Expr): Option<Expr>
    requires call.FuncExpr?
  {
    if planner.Active() && forall i | 0 <= i < |call.args| :: ArgCanBePutIntoSubquery(call.args[i])
    then Some(SubLink(call)) else None
  }

  lemma {:induction false} AcceptedArgIgnoresRow(env: Env, row: Row, row': Row, arg: Expr)
    requires ArgCanBePutIntoSubquery(arg)
    ensures Eval(env, row, arg) == Eval(env, row', arg)
  {
    if arg.CoerceToDomain? {
      AcceptedArgIgnoresRow(env, row, row', arg.arg);
    }
  }

  /** Lifting an accepted call into a subquery changes its value on no row. */
  lemma SubqueryIsSound(env: Env, row: Row, planner: Planner, call: Expr)
    requires call.FuncExpr? && RewriteFnCallToSubquery(planner, call).Some?
    ensures Eval(env, row, RewriteFnCallToSubquery(planner, call).value) == Eval(env, row, call)
  {
    var args := call.args;
    forall i | 0 <= i < |args| ensures Eval(env, row, args[i]) == Eval(env, map[], args[i]) {
      AcceptedArgIgnoresRow(env, row, map[], args[i]);
    }
    assert seq(|args|, i requires 0 <= i < |args| => Eval(env, row, args[i]))
        == seq(|args|, i requires 0 <= i < |args| => Eval(env, map[], args[i]));
  }

  // ---------- tag_map_rewrite ----------

  function StripTypeCoercion(e: Expr): Expr {
    match e
    case CoerceToDomain(arg) => arg
    case RelabelType(arg) => arg
    case _ => e
  }

  /** The pieces of `tag_map_denormalize(map) -> key OP value`. */
  datatype Parts = Parts(map_: Expr, key: Expr, value: Expr)

  function Match(args: seq<Expr>): Option<Parts> {
    if args == [] then None
    else
      var arrow := StripTypeCoercion(args[0]);
      if !arrow.OpExpr? || arrow.op != "->" || arrow.args == [] then None
      else
        var denormalize := StripTypeCoercion(arrow.args[0]);
        if !denormalize.FuncExpr? || denormalize.func != "tag_map_denormalize" || denormalize.args == [] then None
        else Some(Parts(denormalize.args[0], arrow.args[|arrow.args| - 1], args[|args| - 1]))
  }

  /** The helper functions that exist, and whether they return an array. */
  function HelperReturnsArray(func: string): Option<bool> {
    if func == "tag_v_eq" then Some(false)
    else if func == "tag_v_ne" then Some(true)
    else None
  }

  function TagMapRewrite(planner: Planner, func: string, args: seq<Expr>): Option<Expr> {
    if !planner.Active() then None
    else match (Match(args), HelperReturnsArray(func))
      case (Some(p), Some(returnsArray)) =>
        var call := FuncExpr(func + "_matching_tags", false, [p.key, p.value]);
        var lifted := RewriteFnCallToSubquery(planner, call);
        var helper := if lifted.Some? then lifted.value else call;
        if returnsArray then Some(ContainsAny([p.map_, helper]))
        else Some(OpExpr("@>", "jsonb_contains", false, [p.map_, helper]))
      case _ => None
  }

  /** What planning does to an expression: operands first, then a supported call is offered to the
      rewrite. It does not descend into subqueries. */
  function Simplify(planner: Planner, e: Expr): Expr
    decreases e
  {
    match e
    case Const(_) => e
    case Var(_) => e
    case CoerceToDomain(arg) => CoerceToDomain(Simplify(planner, arg))
    case RelabelType(arg) => RelabelType(Simplify(planner, arg))
    case OpExpr(op, func, supported, args) =>
      var args' := SimplifyAll(planner, args);
      var r := TagMapRewrite(planner, func, args');
      if supported && r.Some? then r.value else OpExpr(op, func, supported, args')
    case FuncExpr(func, supported, args) =>
      var args' := SimplifyAll(planner, args);
      var r := TagMapRewrite(planner, func, args');
      if supported && r.Some? then r.value else FuncExpr(func, supported, args')
    case ContainsAny(args) => ContainsAny(SimplifyAll(planner, args))
    case SubLink(_) => e
    case And(l, r) => And(Simplify(planner, l), Simplify(planner, r))
    case Or(l, r) => Or(Simplify(planner, l), Simplify(planner, r))
    case Not(arg) => Not(Simplify(planner, arg))
  }

  function SimplifyAll(planner: Planner, args: seq<Expr>): seq<Expr>
    decreases args
  {
    seq(|args|, i requires 0 <= i < |args| => Simplify(planner, args[i]))
  }

  // ---------- which conditions are rewritten, and to what ----------

  /** `e` is `inner`, with at most one coercion around it. */
  predicate Coerced(e: Expr, inner: Expr) {
    if e.CoerceToDomain? || e.RelabelType? then e.arg == inner else e == inner
  }

  /** `tag_map_denormalize(map) -> key` is the first argument and `value` the last one. */
  predicate IsTagCondition(args: seq<Expr>, arrow: Expr, denormalize: Expr) {
    && args != [] && Coerced(args[0], arrow)
    && arrow.OpExpr? && arrow.op == "->" && arrow.args != [] && Coerced(arrow.args[0], denormalize)
    && denormalize.FuncExpr? && denormalize.func == "tag_map_denormalize" && denormalize.args != []
  }

  lemma MatchExactlyWhen(args: seq<Expr>)
    ensures Match(args).Some? <==> exists arrow, denormalize :: IsTagCondition(args, arrow, denormalize)
    ensures forall arrow, denormalize | IsTagCondition(args, arrow, denormalize) ::
              Match(args) == Some(Parts(denormalize.args[0], arrow.args[|arrow.args| - 1], args[|args| - 1]))
  {
    if Match(args).Some? {
      var arrow := StripTypeCoercion(args[0]);
      assert IsTagCondition(args, arrow, StripTypeCoercion(arrow.args[0]));
    }
  }

  /** Outside subqueries all conditions of this form on `=` and `<>` are rewritten, and nothing else. */
  lemma RewrittenExactlyWhen(planner: Planner, func: string, args: seq<Expr>)
    ensures TagMapRewrite(planner, func, args).Some? <==>
              && planner.hasRoot && planner.queryLevel <= 1 && (func == "tag_v_eq" || func == "tag_v_ne")
              && exists arrow, denormalize :: IsTagCondition(args, arrow, denormalize)
  {
    MatchExactlyWhen(args);
  }

  /** A constant, possibly coerced to a domain: an argument that a subquery can take. */
  predicate IsConstant(e: Expr) {
    e.Const? || (e.CoerceToDomain? && IsConstant(e.arg))
  }

  lemma {:induction false} AcceptedExactlyWhen(e: Expr)
    ensures ArgCanBePutIntoSubquery(e) <==> IsConstant(e)
  {
    if e.CoerceToDomain? {
      AcceptedExactlyWhen(e.arg);
    }
  }

  /** Outside subqueries all calls with constant arguments become subqueries, and nothing else does. */
  lemma LiftedExactlyWhen(planner: Planner, call: Expr)
    requires call.FuncExpr?
    ensures RewriteFnCallToSubquery(planner, call) ==
              if planner.hasRoot && planner.queryLevel <= 1 && forall arg | arg in call.args :: IsConstant(arg)
              then Some(SubLink(call)) else None
  {
    forall arg | arg in call.args {
      AcceptedExactlyWhen(arg);
    }
    assert forall i | 0 <= i < |call.args| :: call.args[i] in call.args;
  }

  /** `=` becomes `map @> tag_v_eq_matching_tags(key, value)`, `<>` becomes
      `map @> ANY (tag_v_ne_matching_tags(key, value))`; the call is a subquery when both are constants. */
  lemma RewrittenTo(planner: Planner, func: string, args: seq<Expr>, arrow: Expr, denormalize: Expr)
    requires TagMapRewrite(planner, func, args).Some? && IsTagCondition(args, arrow, denormalize)
    ensures var key, value := arrow.args[|arrow.args| - 1], args[|args| - 1];
            var name := if func == "tag_v_eq" then "tag_v_eq_matching_tags" else "tag_v_ne_matching_tags";
            var call := FuncExpr(name, false, [key, value]);
            var helper := if IsConstant(key) && IsConstant(value) then SubLink(call) else call;
            TagMapRewrite(planner, func, args)
              == Some(if func == "tag_v_eq" then OpExpr("@>", "jsonb_contains", false, [denormalize.args[0], helper])
                      else ContainsAny([denormalize.args[0], helper]))
  {
    MatchExactlyWhen(args);
    assert func == "tag_v_eq" ==> func + "_matching_tags" == "tag_v_eq_matching_tags";
    assert func == "tag_v_ne" ==> func + "_matching_tags" == "tag_v_ne_matching_tags";
    var key, value := arrow.args[|arrow.args| - 1], args[|args| - 1];
    LiftedExactlyWhen(planner, FuncExpr(func + "_matching_tags", false, [key, value]));
  }

  /** Nothing is left to rewrite, at any depth outside subqueries. */
  predicate Planned(planner: Planner, e: Expr) {
    match e
    case Const(_) => true
    case Var(_) => true
    case SubLink(_) => true
    case CoerceToDomain(arg) => Planned(planner, arg)
    case RelabelType(arg) => Planned(planner, arg)
    case OpExpr(_, func, supported, args) =>
      !(supported && TagMapRewrite(planner, func, args).Some?)
      && forall i | 0 <= i < |args| :: Planned(planner, args[i])
    case FuncExpr(func, supported, args) =>
      !(supported && TagMapRewrite(planner, func, args).Some?)
      && forall i | 0 <= i < |args| :: Planned(planner, args[i])
    case ContainsAny(args) => forall i | 0 <= i < |args| :: Planned(planner, args[i])
    case And(l, r) => Planned(planner, l) && Planned(planner, r)
    case Or(l, r) => Planned(planner, l) && Planned(planner, r)
    case Not(arg) => Planned(planner, arg)
  }

  lemma StrippedIsPlanned(planner: Planner, e: Expr)
    requires Planned(planner, e)
    ensures Planned(planner, StripTypeCoercion(e))
  {
  }

  lemma RewrittenIsPlanned(planner: Planner, func: string, args: seq<Expr>)
    requires TagMapRewrite(planner, func, args).Some? && forall i | 0 <= i < |args| :: Planned(planner, args[i])
    ensures Planned(planner, TagMapRewrite(planner, func, args).value)
  {
    var p := Match(args).value;
    var arrow := StripTypeCoercion(args[0]);
    var denormalize := StripTypeCoercion(arrow.args[0]);
    StrippedIsPlanned(planner, args[0]);
    StrippedIsPlanned(planner, arrow.args[0]);
    assert Planned(planner, p.map_) && Planned(planner, p.key) && Planned(planner, p.value);
  }

  /** Planning leaves no tag condition behind, at any depth outside subqueries. */
  lemma {:induction false} PlansAll(planner: Planner, e: Expr)
    ensures Planned(planner, Simplify(planner, e))
  {
    match e
    case And(l, r) =>
      PlansAll(planner, l);
      PlansAll(planner, r);
    case Or(l, r) =>
      PlansAll(planner, l);
      PlansAll(planner, r);
    case CoerceToDomain(arg) => PlansAll(planner, arg);
    case RelabelType(arg) => PlansAll(planner, arg);
    case Not(arg) => PlansAll(planner, arg);
    case ContainsAny(args) =>
      forall i | 0 <= i < |args| {
        PlansAll(planner, args[i]);
      }
    case OpExpr(_, func, _, args) =>
      forall i | 0 <= i < |args| {
        PlansAll(planner, args[i]);
      }
      if TagMapRewrite(planner, func, SimplifyAll(planner, args)).Some? {
        RewrittenIsPlanned(planner, func, SimplifyAll(planner, args));
      }
    case FuncExpr(func, _, args) =>
      forall i | 0 <= i < |args| {
        PlansAll(planner, args[i]);
      }
      if TagMapRewrite(planner, func, SimplifyAll(planner, args)).Some? {
        RewrittenIsPlanned(planner, func, SimplifyAll(planner, args));
      }
    case _ =>
  }

  /** What has nothing left to rewrite is left alone, so planning twice is planning once. */
  lemma {:induction false} PlannedIsFixed(planner: Planner, e: Expr)
    requires Planned(planner, e)
    ensures Simplify(planner, e) == e
  {
    match e
    case And(l, r) =>
      PlannedIsFixed(planner, l);
      PlannedIsFixed(planner, r);
    case Or(l, r) =>
      PlannedIsFixed(planner, l);
      PlannedIsFixed(planner, r);
    case CoerceToDomain(arg) => PlannedIsFixed(planner, arg);
    case RelabelType(arg) => PlannedIsFixed(planner, arg);
    case Not(arg) => PlannedIsFixed(planner, arg);
    case ContainsAny(args) => PlannedArgsAreFixed(planner, args);
    case OpExpr(_, _, _, args) => PlannedArgsAreFixed(planner, args);
    case FuncExpr(_, _, args) => PlannedArgsAreFixed(planner, args);
    case _ =>
  }

  lemma {:induction false} PlannedArgsAreFixed(planner: Planner, args: seq<Expr>)
    requires forall i | 0 <= i < |args| :: Planned(planner, args[i])
    ensures SimplifyAll(planner, args) == args
  {
    forall i | 0 <= i < |args| {
      PlannedIsFixed(planner, args[i]);
    }
  }

  // ---------- what a matched condition means ----------

  /** Parse analysis has checked arities; `->` on a tag map is the object field operator. */
  predicate WellTyped(args: seq<Expr>) {
    Match(args).Some? ==>
      && |args| == 2
      && var arrow := StripTypeCoercion(args[0]);
      && |arrow.args| == 2 && arrow.func in {"tag_map_object_field", "jsonb_object_field"}
      && |StripTypeCoercion(arrow.args[0]).args| == 1
  }

  /** On this row the map is NULL or a well-formed stored map, the key a text, the value a jsonb. */
  ghost predicate Typed(env: Env, row: Row, p: Parts) {
    var m, k, v := Eval(env, row, p.map_), Eval(env, row, p.key), Eval(env, row, p.value);
    && (m == SqlNull || (m.StoredMap? && env.catalog.WellFormed(m.m)))
    && (k == SqlNull || k.Text?) && (v == SqlNull || v.Jsonb?)
  }

  lemma CoercionKeepsValue(env: Env, row: Row, e: Expr)
    ensures Eval(env, row, StripTypeCoercion(e)) == Eval(env, row, e)
  {
  }

  ghost function FieldValue(env: Env, m: Value, k: Value): Value {
    if m.StoredMap? && k.Text? && Field(env.catalog, m.m, k.s).Some?
    then Jsonb(Field(env.catalog, m.m, k.s).value) else SqlNull
  }

  lemma DenormalizedField(env: Env, m: Value, k: Value)
    requires m == SqlNull || m.StoredMap?
    ensures ObjectField(Call(env, "tag_map_denormalize", [m]), k) == FieldValue(env, m, k)
  {
    if m.StoredMap? && k.Text? && Field(env.catalog, m.m, k.s).Some? {
      var t := TagOfField(env.catalog, m.m, k.s);
      assert k.s in Denormalize(env.catalog, m.m);
    }
  }

  lemma EvalTwo(env: Env, row: Row, func: string, supported: bool, a: Expr, b: Expr)
    ensures Eval(env, row, FuncExpr(func, supported, [a, b])) == Call(env, func, [Eval(env, row, a), Eval(env, row, b)])
    ensures forall op :: Eval(env, row, OpExpr(op, func, supported, [a, b]))
                      == Call(env, func, [Eval(env, row, a), Eval(env, row, b)])
  {
    var args := [a, b];
    assert seq(|args|, i requires 0 <= i < |args| => Eval(env, row, args[i])) == [Eval(env, row, a), Eval(env, row, b)];
  }

  lemma EvalOne(env: Env, row: Row, func: string, supported: bool, a: Expr)
    ensures Eval(env, row, FuncExpr(func, supported, [a])) == Call(env, func, [Eval(env, row, a)])
  {
    var args := [a];
    assert seq(|args|, i requires 0 <= i < |args| => Eval(env, row, args[i])) == [Eval(env, row, a)];
  }

  /** The left operand of a matched condition is the field of the denormalized map. */
  lemma MatchedLeft(env: Env, row: Row, args: seq<Expr>)
    requires Match(args).Some? && WellTyped(args) && Typed(env, row, Match(args).value)
    ensures var p := Match(args).value;
            Eval(env, row, args[0]) == FieldValue(env, Eval(env, row, p.map_), Eval(env, row, p.key))
  {
    var p := Match(args).value;
    var arrow := StripTypeCoercion(args[0]);
    var denormalize := StripTypeCoercion(arrow.args[0]);
    CoercionKeepsValue(env, row, args[0]);
    CoercionKeepsValue(env, row, arrow.args[0]);
    assert arrow.args == [arrow.args[0], p.key] && denormalize.args == [p.map_];
    EvalTwo(env, row, arrow.func, arrow.supported, arrow.args[0], p.key);
    EvalOne(env, row, denormalize.func, denormalize.supported, p.map_);
    DenormalizedField(env, Eval(env, row, p.map_), Eval(env, row, p.key));
  }

  /** The call to a helper, in a subquery or not, has the same value on the row. */
  lemma HelperValue(env: Env, row: Row, planner: Planner, func: string, p: Parts)
    ensures var call := FuncExpr(func, false, [p.key, p.value]);
            var lifted := RewriteFnCallToSubquery(planner, call);
            Eval(env, row, if lifted.Some? then lifted.value else call)
              == Call(env, func, [Eval(env, row, p.key), Eval(env, row, p.value)])
  {
    var call := FuncExpr(func, false, [p.key, p.value]);
    EvalTwo(env, row, func, false, p.key, p.value);
    if RewriteFnCallToSubquery(planner, call).Some? {
      SubqueryIsSound(env, row, planner, call);
    }
  }

  lemma RewrittenEq(env: Env, row: Row, planner: Planner, args: seq<Expr>)
    requires TagMapRewrite(planner, "tag_v_eq", args).Some?
    ensures var p := Match(args).value;
            var m, k, v := Eval(env, row, p.map_), Eval(env, row, p.key), Eval(env, row, p.value);
            Eval(env, row, TagMapRewrite(planner, "tag_v_eq", args).value)
              == Call(env, "jsonb_contains", [m, Call(env, "tag_v_eq_matching_tags", [k, v])])
  {
    var p := Match(args).value;
    assert "tag_v_eq" + "_matching_tags" == "tag_v_eq_matching_tags";
    HelperValue(env, row, planner, "tag_v_eq_matching_tags", p);
    var call := FuncExpr("tag_v_eq_matching_tags", false, [p.key, p.value]);
    var lifted := RewriteFnCallToSubquery(planner, call);
    EvalTwo(env, row, "jsonb_contains", false, p.map_, if lifted.Some? then lifted.value else call);
  }

  lemma RewrittenNe(env: Env, row: Row, planner: Planner, args: seq<Expr>)
    requires TagMapRewrite(planner, "tag_v_ne", args).Some?
    ensures var p := Match(args).value;
            var m, k, v := Eval(env, row, p.map_), Eval(env, row, p.key), Eval(env, row, p.value);
            Eval(env, row, TagMapRewrite(planner, "tag_v_ne", args).value)
              == AnyContained(m, Call(env, "tag_v_ne_matching_tags", [k, v]))
  {
    var p := Match(args).value;
    assert "tag_v_ne" + "_matching_tags" == "tag_v_ne_matching_tags";
    HelperValue(env, row, planner, "tag_v_ne_matching_tags", p);
  }

  // ---------- meaning is preserved as a filter ----------

  /** When the value of a rewritten `=` condition is the value of the original. */
  ghost predicate EqKeepsValue(env: Env, m: Value, k: Value, v: Value) {
    m == SqlNull || k == SqlNull || v == SqlNull ||
    (m.StoredMap? && k.Text? && v.Jsonb? &&
      (Field(env.catalog, m.m, k.s).Some? <==> exists t | t in env.catalog.tags :: t.key == k.s && Same(t.value, v.j)))
  }

  /** When the value of a rewritten `<>` condition is the value of the original. */
  ghost predicate NeKeepsValue(env: Env, m: Value, k: Value, v: Value) {
    k.Text? && v.Jsonb? &&
      if m.StoredMap? then Field(env.catalog, m.m, k.s).Some?
      else exists t | t in env.catalog.tags :: t.key == k.s && !Same(t.value, v.j)
  }

  lemma HelperFinds(c: Catalog, key: string, value: Json)
    requires c.Valid()
    ensures EqMatchingTags(c, key, value).Some? <==> exists t | t in c.tags :: t.key == key && Same(t.value, value)
  {
    if t :| t in c.tags && t.key == key && Same(t.value, value) {
      EqHelper(c, t, key, value);
    }
    if EqMatchingTags(c, key, value).Some? {
      var t := TagOfHelper(c, key, value);
    }
  }

  lemma NeHelperEmpty(c: Catalog, key: string, value: Json)
    ensures NeMatchingTags(c, key, value) != {} <==> exists t | t in c.tags :: t.key == key && !Same(t.value, value)
  {
    if t :| t in c.tags && t.key == key && !Same(t.value, value) {
      assert map[t.keyId := t.id] in NeMatchingTags(c, key, value);
    }
    if part :| part in NeMatchingTags(c, key, value) {
    }
  }

  ghost predicate ThreeValued(v: Value) {
    v.SqlNull? || v.Boolean?
  }

  /** FALSE, NULL and TRUE in this order. */
  ghost function Rank(v: Value): int {
    if v == Boolean(false) then 0 else if v == Boolean(true) then 2 else 1
  }

  /** In that order AND is the lesser operand, OR the greater one, and NOT turns the order around. */
  lemma ThreeValuedLogic(env: Env, row: Row, l: Expr, r: Expr)
    requires ThreeValued(Eval(env, row, l)) && ThreeValued(Eval(env, row, r))
    ensures var a, b := Rank(Eval(env, row, l)), Rank(Eval(env, row, r));
            && Rank(Eval(env, row, And(l, r))) == (if a < b then a else b)
            && Rank(Eval(env, row, Or(l, r))) == (if a < b then b else a)
            && Rank(Eval(env, row, Not(l))) == 2 - a
            && ThreeValued(Eval(env, row, And(l, r))) && ThreeValued(Eval(env, row, Or(l, r)))
            && ThreeValued(Eval(env, row, Not(l)))
  {
  }

  /** The comparison of values behind a rewritten `=`. */
  lemma EqValues(env: Env, m: Value, k: Value, v: Value)
    requires env.catalog.Valid() && (m == SqlNull || (m.StoredMap? && env.catalog.WellFormed(m.m)))
    requires (k == SqlNull || k.Text?) && (v == SqlNull || v.Jsonb?)
    ensures var original := Compare(true, FieldValue(env, m, k), v);
            var rewritten := Call(env, "jsonb_contains", [m, Call(env, "tag_v_eq_matching_tags", [k, v])]);
            && (original == Boolean(true) <==> rewritten == Boolean(true))
            && (original == rewritten <==> EqKeepsValue(env, m, k, v))
            && ThreeValued(original) && ThreeValued(rewritten)
  {
    if m.StoredMap? && k.Text? && v.Jsonb? {
      EqIsContainment(env.catalog, m.m, k.s, v.j);
      HelperFinds(env.catalog, k.s, v.j);
    }
  }

  /** The comparison of values behind a rewritten `<>`. */
  lemma NeValues(env: Env, m: Value, k: Value, v: Value)
    requires env.catalog.Valid() && (m == SqlNull || (m.StoredMap? && env.catalog.WellFormed(m.m)))
    requires (k == SqlNull || k.Text?) && (v == SqlNull || v.Jsonb?)
    ensures var original := Compare(false, FieldValue(env, m, k), v);
            var rewritten := AnyContained(m, Call(env, "tag_v_ne_matching_tags", [k, v]));
            && (original == Boolean(true) <==> rewritten == Boolean(true))
            && (original == rewritten <==> NeKeepsValue(env, m, k, v))
            && ThreeValued(original) && ThreeValued(rewritten)
  {
    if k.Text? && v.Jsonb? {
      NeHelperEmpty(env.catalog, k.s, v.j);
      if m.StoredMap? {
        NeIsAnyContainment(env.catalog, m.m, k.s, v.j);
      }
    }
  }

  /** A rewritten `=` is TRUE for the same rows; its value is the same exactly when the key is set on
      the row if and only if the table has a tag of that key and value. */
  lemma EqRewriteSound(env: Env, row: Row, planner: Planner, args: seq<Expr>)
    requires env.catalog.Valid() && WellTyped(args) && TagMapRewrite(planner, "tag_v_eq", args).Some?
    requires Typed(env, row, Match(args).value)
    ensures var p := Match(args).value;
            var original := Compare(true, Eval(env, row, args[0]), Eval(env, row, args[1]));
            var rewritten := Eval(env, row, TagMapRewrite(planner, "tag_v_eq", args).value);
            && (original == Boolean(true) <==> rewritten == Boolean(true))
            && (original == rewritten <==>
                  EqKeepsValue(env, Eval(env, row, p.map_), Eval(env, row, p.key), Eval(env, row, p.value)))
            && ThreeValued(original) && ThreeValued(rewritten)
  {
    var p := Match(args).value;
    MatchedLeft(env, row, args);
    RewrittenEq(env, row, planner, args);
    EqValues(env, Eval(env, row, p.map_), Eval(env, row, p.key), Eval(env, row, p.value));
  }

  /** A rewritten `<>` is TRUE for the same rows; its value is the same exactly when the key is set on
      the row, or the map is NULL while some tag of the key has another value. */
  lemma NeRewriteSound(env: Env, row: Row, planner: Planner, args: seq<Expr>)
    requires env.catalog.Valid() && WellTyped(args) && TagMapRewrite(planner, "tag_v_ne", args).Some?
    requires Typed(env, row, Match(args).value)
    ensures var p := Match(args).value;
            var original := Compare(false, Eval(env, row, args[0]), Eval(env, row, args[1]));
            var rewritten := Eval(env, row, TagMapRewrite(planner, "tag_v_ne", args).value);
            && (original == Boolean(true) <==> rewritten == Boolean(true))
            && (original == rewritten <==>
                  NeKeepsValue(env, Eval(env, row, p.map_), Eval(env, row, p.key), Eval(env, row, p.value)))
            && ThreeValued(original) && ThreeValued(rewritten)
  {
    var p := Match(args).value;
    MatchedLeft(env, row, args);
    RewrittenNe(env, row, planner, args);
    NeValues(env, Eval(env, row, p.map_), Eval(env, row, p.key), Eval(env, row, p.value));
  }

  // ---------- whole conditions ----------

  ghost predicate SoundCall(env: Env, row: Row, args: seq<Expr>) {
    WellTyped(args) && (Match(args).Some? ==> Typed(env, row, Match(args).value))
  }

  /** Whether the rewrite of a call keeps its value on the row, from the values of its parts and the tags. */
  ghost predicate KeepsValue(env: Env, row: Row, func: string, args: seq<Expr>)
    requires Match(args).Some?
  {
    var p := Match(args).value;
    var m, k, v := Eval(env, row, p.map_), Eval(env, row, p.key), Eval(env, row, p.value);
    if func == "tag_v_eq" then EqKeepsValue(env, m, k, v) else NeKeepsValue(env, m, k, v)
  }

  lemma Comparison(env: Env, row: Row, e: Expr)
    requires (e.FuncExpr? || e.OpExpr?) && e.func in {"tag_v_eq", "tag_v_ne"} && |e.args| == 2
    ensures Eval(env, row, e) == Compare(e.func == "tag_v_eq", Eval(env, row, e.args[0]), Eval(env, row, e.args[1]))
  {
    assert e.args == [e.args[0], e.args[1]];
    EvalTwo(env, row, e.func, e.supported, e.args[0], e.args[1]);
  }

  /** One rewritten call is TRUE for the same rows, and its value is the same exactly under `KeepsValue`. */
  lemma CallRewriteSound(env: Env, row: Row, planner: Planner, func: string, args: seq<Expr>, e: Expr)
    requires env.catalog.Valid() && SoundCall(env, row, args) && TagMapRewrite(planner, func, args).Some?
    requires (e.FuncExpr? || e.OpExpr?) && e.func == func && e.args == args
    ensures var e' := TagMapRewrite(planner, func, args).value;
            && (Selects(env, row, e) <==> Selects(env, row, e'))
            && (Eval(env, row, e) == Eval(env, row, e') <==> KeepsValue(env, row, func, args))
            && ThreeValued(Eval(env, row, e)) && ThreeValued(Eval(env, row, e'))
  {
    Comparison(env, row, e);
    if func == "tag_v_eq" {
      EqRewriteSound(env, row, planner, args);
    } else {
      NeRewriteSound(env, row, planner, args);
    }
  }

  /** A supported call that is not rewritten, or is rewritten on well-typed operands. */
  ghost predicate SoundOffer(env: Env, row: Row, planner: Planner, func: string, supported: bool, args: seq<Expr>) {
    supported && TagMapRewrite(planner, func, args).Some? ==> SoundCall(env, row, args)
  }

  ghost predicate KeepingOffer(env: Env, row: Row, planner: Planner, func: string, supported: bool, args: seq<Expr>) {
    supported && TagMapRewrite(planner, func, args).Some? ==> KeepsValue(env, row, func, args)
  }

  /** All calls that planning rewrites in the expression are well typed, with operands typed on this row. */
  ghost predicate Sound(env: Env, row: Row, planner: Planner, e: Expr) {
    match e
    case Const(_) => true
    case Var(_) => true
    case CoerceToDomain(arg) => Sound(env, row, planner, arg)
    case RelabelType(arg) => Sound(env, row, planner, arg)
    case OpExpr(_, func, supported, args) =>
      SoundOffer(env, row, planner, func, supported, SimplifyAll(planner, args))
      && forall i | 0 <= i < |args| :: Sound(env, row, planner, args[i])
    case FuncExpr(func, supported, args) =>
      SoundOffer(env, row, planner, func, supported, SimplifyAll(planner, args))
      && forall i | 0 <= i < |args| :: Sound(env, row, planner, args[i])
    case ContainsAny(args) => forall i | 0 <= i < |args| :: Sound(env, row, planner, args[i])
    case SubLink(_) => true
    case And(l, r) => Sound(env, row, planner, l) && Sound(env, row, planner, r)
    case Or(l, r) => Sound(env, row, planner, l) && Sound(env, row, planner, r)
    case Not(arg) => Sound(env, row, planner, arg)
  }

  /** Every call that planning rewrites in the expression keeps its value on this row. */
  ghost predicate AllKeep(env: Env, row: Row, planner: Planner, e: Expr) {
    match e
    case Const(_) => true
    case Var(_) => true
    case CoerceToDomain(arg) => AllKeep(env, row, planner, arg)
    case RelabelType(arg) => AllKeep(env, row, planner, arg)
    case OpExpr(_, func, supported, args) =>
      KeepingOffer(env, row, planner, func, supported, SimplifyAll(planner, args))
      && forall i | 0 <= i < |args| :: AllKeep(env, row, planner, args[i])
    case FuncExpr(func, supported, args) =>
      KeepingOffer(env, row, planner, func, supported, SimplifyAll(planner, args))
      && forall i | 0 <= i < |args| :: AllKeep(env, row, planner, args[i])
    case ContainsAny(args) => forall i | 0 <= i < |args| :: AllKeep(env, row, planner, args[i])
    case SubLink(_) => true
    case And(l, r) => AllKeep(env, row, planner, l) && AllKeep(env, row, planner, r)
    case Or(l, r) => AllKeep(env, row, planner, l) && AllKeep(env, row, planner, r)
    case Not(arg) => AllKeep(env, row, planner, arg)
  }

  /** Rewritten calls keep their value wherever more than their being TRUE matters: below anything but
      AND, OR and coercions. */
  ghost predicate KeepWhereSeen(env: Env, row: Row, planner: Planner, e: Expr) {
    match e
    case And(l, r) => KeepWhereSeen(env, row, planner, l) && KeepWhereSeen(env, row, planner, r)
    case Or(l, r) => KeepWhereSeen(env, row, planner, l) && KeepWhereSeen(env, row, planner, r)
    case CoerceToDomain(arg) => KeepWhereSeen(env, row, planner, arg)
    case RelabelType(arg) => KeepWhereSeen(env, row, planner, arg)
    case OpExpr(_, _, _, args) => forall i | 0 <= i < |args| :: AllKeep(env, row, planner, args[i])
    case FuncExpr(_, _, args) => forall i | 0 <= i < |args| :: AllKeep(env, row, planner, args[i])
    case _ => AllKeep(env, row, planner, e)
  }

  /** Calls on operands of the same values have the same value. */
  lemma SameOperands(env: Env, row: Row, args: seq<Expr>, args': seq<Expr>)
    requires |args'| == |args| && forall i | 0 <= i < |args| :: Eval(env, row, args'[i]) == Eval(env, row, args[i])
    ensures forall func, supported :: Eval(env, row, FuncExpr(func, supported, args'))
                                   == Eval(env, row, FuncExpr(func, supported, args))
    ensures forall op, func, supported :: Eval(env, row, OpExpr(op, func, supported, args'))
                                       == Eval(env, row, OpExpr(op, func, supported, args))
    ensures Eval(env, row, ContainsAny(args')) == Eval(env, row, ContainsAny(args))
  {
    assert seq(|args'|, i requires 0 <= i < |args'| => Eval(env, row, args'[i]))
        == seq(|args|, i requires 0 <= i < |args| => Eval(env, row, args[i]));
  }

  lemma PartsKeepValue(env: Env, row: Row, planner: Planner, l: Expr, r: Expr)
    requires Eval(env, row, Simplify(planner, l)) == Eval(env, row, l)
    requires Eval(env, row, Simplify(planner, r)) == Eval(env, row, r)
    ensures Eval(env, row, Simplify(planner, And(l, r))) == Eval(env, row, And(l, r))
    ensures Eval(env, row, Simplify(planner, Or(l, r))) == Eval(env, row, Or(l, r))
  {
  }

  /** Where every rewritten call keeps its value, so does the whole expression. */
  lemma {:induction false} SimplifyKeepsValue(env: Env, row: Row, planner: Planner, e: Expr)
    requires env.catalog.Valid() && Sound(env, row, planner, e) && AllKeep(env, row, planner, e)
    ensures Eval(env, row, Simplify(planner, e)) == Eval(env, row, e)
    decreases e, 1
  {
    match e
    case Const(_) =>
    case Var(_) =>
    case SubLink(_) =>
    case CoerceToDomain(arg) => SimplifyKeepsValue(env, row, planner, arg);
    case RelabelType(arg) => SimplifyKeepsValue(env, row, planner, arg);
    case Not(arg) => SimplifyKeepsValue(env, row, planner, arg);
    case And(l, r) =>
      SimplifyKeepsValue(env, row, planner, l);
      SimplifyKeepsValue(env, row, planner, r);
      PartsKeepValue(env, row, planner, l, r);
    case Or(l, r) =>
      SimplifyKeepsValue(env, row, planner, l);
      SimplifyKeepsValue(env, row, planner, r);
      PartsKeepValue(env, row, planner, l, r);
    case _ => CallKeepsValue(env, row, planner, e);
  }

  lemma {:induction false} CallKeepsValue(env: Env, row: Row, planner: Planner, e: Expr)
    requires env.catalog.Valid() && (e.ContainsAny? || e.OpExpr? || e.FuncExpr?)
    requires Sound(env, row, planner, e) && AllKeep(env, row, planner, e)
    ensures Eval(env, row, Simplify(planner, e)) == Eval(env, row, e)
    decreases e, 0
  {
    OperandsKeepValue(env, row, planner, e.args);
    if e.ContainsAny? {
      SameOperands(env, row, e.args, SimplifyAll(planner, e.args));
    } else {
      CallOffered(env, row, planner, e);
    }
  }

  lemma {:induction false} OperandsKeepValue(env: Env, row: Row, planner: Planner, args: seq<Expr>)
    requires env.catalog.Valid()
    requires forall i | 0 <= i < |args| :: Sound(env, row, planner, args[i]) && AllKeep(env, row, planner, args[i])
    ensures forall i | 0 <= i < |args| :: Eval(env, row, SimplifyAll(planner, args)[i]) == Eval(env, row, args[i])
    decreases args
  {
    forall i | 0 <= i < |args| {
      SimplifyKeepsValue(env, row, planner, args[i]);
    }
  }

  /** A call whose operands keep their values selects the same rows, and keeps its value if its rewrite does. */
  lemma CallOffered(env: Env, row: Row, planner: Planner, e: Expr)
    requires env.catalog.Valid() && (e.FuncExpr? || e.OpExpr?)
    requires SoundOffer(env, row, planner, e.func, e.supported, SimplifyAll(planner, e.args))
    requires forall i | 0 <= i < |e.args| ::
               Eval(env, row, SimplifyAll(planner, e.args)[i]) == Eval(env, row, e.args[i])
    ensures Selects(env, row, Simplify(planner, e)) <==> Selects(env, row, e)
    ensures KeepingOffer(env, row, planner, e.func, e.supported, SimplifyAll(planner, e.args)) ==>
              Eval(env, row, Simplify(planner, e)) == Eval(env, row, e)
  {
    var args' := SimplifyAll(planner, e.args);
    var offered :=
      if e.FuncExpr? then FuncExpr(e.func, e.supported, args') else OpExpr(e.op, e.func, e.supported, args');
    SameOperands(env, row, e.args, args');
    assert Eval(env, row, offered) == Eval(env, row, e);
    var rewritten := TagMapRewrite(planner, e.func, args');
    assert Simplify(planner, e) == if e.supported && rewritten.Some? then rewritten.value else offered;
    if e.supported && rewritten.Some? {
      CallRewriteSound(env, row, planner, e.func, args', offered);
    }
  }

  /** A filter splits at AND and OR. */
  lemma SelectsParts(env: Env, row: Row, planner: Planner, l: Expr, r: Expr)
    requires Selects(env, row, Simplify(planner, l)) <==> Selects(env, row, l)
    requires Selects(env, row, Simplify(planner, r)) <==> Selects(env, row, r)
    ensures Selects(env, row, Simplify(planner, And(l, r))) <==> Selects(env, row, And(l, r))
    ensures Selects(env, row, Simplify(planner, Or(l, r))) <==> Selects(env, row, Or(l, r))
  {
  }

  lemma CallSelectsSame(env: Env, row: Row, planner: Planner, e: Expr)
    requires env.catalog.Valid() && (e.OpExpr? || e.FuncExpr?)
    requires Sound(env, row, planner, e) && KeepWhereSeen(env, row, planner, e)
    ensures Selects(env, row, Simplify(planner, e)) <==> Selects(env, row, e)
  {
    OperandsKeepValue(env, row, planner, e.args);
    CallOffered(env, row, planner, e);
  }

  /** A condition selects the same rows before and after planning as long as every rewritten call keeps
      its value on the row wherever more than its being TRUE matters, as below a NOT. */
  lemma {:induction false} SimplifySelectsSame(env: Env, row: Row, planner: Planner, e: Expr)
    requires env.catalog.Valid() && Sound(env, row, planner, e) && KeepWhereSeen(env, row, planner, e)
    ensures Selects(env, row, Simplify(planner, e)) <==> Selects(env, row, e)
  {
    match e
    case And(l, r) =>
      SimplifySelectsSame(env, row, planner, l);
      SimplifySelectsSame(env, row, planner, r);
      SelectsParts(env, row, planner, l, r);
    case Or(l, r) =>
      SimplifySelectsSame(env, row, planner, l);
      SimplifySelectsSame(env, row, planner, r);
      SelectsParts(env, row, planner, l, r);
    case CoerceToDomain(arg) => SimplifySelectsSame(env, row, planner, arg);
    case RelabelType(arg) => SimplifySelectsSame(env, row, planner, arg);
    case OpExpr(_, _, _, _) => CallSelectsSame(env, row, planner, e);
    case FuncExpr(_, _, _) => CallSelectsSame(env, row, planner, e);
    case _ => SimplifyKeepsValue(env, row, planner, e);
  }

  lemma NotSelects(env: Env, row: Row, e: Expr)
    ensures Selects(env, row, Not(e)) <==> Eval(env, row, e) == Boolean(false)
  {
  }

  /** Below a NOT a rewritten call selects the same rows exactly when, for `=`, a key that is set or has
      a matching tag is both, and for `<>`, the key is set, or the map is NULL while another value exists. */
  lemma NotNeedsSameValue(env: Env, row: Row, planner: Planner, func: string, args: seq<Expr>, e: Expr)
    requires env.catalog.Valid() && SoundCall(env, row, args) && TagMapRewrite(planner, func, args).Some?
    requires (e.FuncExpr? || e.OpExpr?) && e.func == func && e.args == args
    ensures (Selects(env, row, Not(TagMapRewrite(planner, func, args).value)) <==> Selects(env, row, Not(e)))
       <==> KeepsValue(env, row, func, args)
  {
    CallRewriteSound(env, row, planner, func, args, e);
    NotSelects(env, row, e);
    NotSelects(env, row, TagMapRewrite(planner, func, args).value);
  }

  /** Where the field is NULL and the rewrite does not keep the value, NULL becomes false. */
  lemma NullBecomesFalse(env: Env, row: Row, planner: Planner, args: seq<Expr>)
    requires env.catalog.Valid() && SoundCall(env, row, args) && TagMapRewrite(planner, "tag_v_eq", args).Some?
    requires Eval(env, row, args[0]) == SqlNull && !KeepsValue(env, row, "tag_v_eq", args)
    ensures Eval(env, row, FuncExpr("tag_v_eq", true, args)) == SqlNull
    ensures Eval(env, row, TagMapRewrite(planner, "tag_v_eq", args).value) == Boolean(false)
  {
    Comparison(env, row, FuncExpr("tag_v_eq", true, args));
    EqRewriteSound(env, row, planner, args);
  }

  /** `denormalize(m) -> 'a'` and `true` */
  function FieldAndTrue(): seq<Expr> {
    [OpExpr("->", "tag_map_object_field", false, [FuncExpr("tag_map_denormalize", false, [Var(0)]), Const(Text("a"))]),
     Const(Jsonb(JBool(true)))]
  }

  lemma NothingToSimplify(planner: Planner)
    ensures SimplifyAll(planner, FieldAndTrue()) == FieldAndTrue()
  {
    var args := FieldAndTrue();
    var denormalize := args[0].args[0];
    assert SimplifyAll(planner, denormalize.args) == denormalize.args;
    assert SimplifyAll(planner, args[0].args) == args[0].args;
  }

  lemma EmptyMapKeepsNothing(env: Env, t: Tag)
    requires t in env.catalog.tags && t.value.JBool?
    ensures FieldValue(env, StoredMap(map[]), Text(t.key)) == SqlNull
    ensures !EqKeepsValue(env, StoredMap(map[]), Text(t.key), Jsonb(t.value))
  {
  }

  lemma FieldOfEmptyMap(env: Env, row: Row, t: Tag)
    requires t == Tag(1, 1, "a", JBool(true)) && t in env.catalog.tags && row == map[0 := StoredMap(map[])]
    ensures var args := FieldAndTrue();
            && Match(args) == Some(Parts(Var(0), args[0].args[1], args[1])) && SoundCall(env, row, args)
            && Eval(env, row, args[0]) == SqlNull && !KeepsValue(env, row, "tag_v_eq", args)
  {
    var args := FieldAndTrue();
    assert Match(args) == Some(Parts(Var(0), args[0].args[1], args[1]));
    MatchedLeft(env, row, args);
    EmptyMapKeepsNothing(env, t);
  }

  /** So it does not hold in general: `NOT (denormalize(m) -> 'a' = true)` does not select a span without
      tags, yet after planning it does. */
  lemma NotIsNotPreserved(pg: Postgres, sha512: seq<Byte> -> seq<Byte>, other: (string, seq<Value>) -> Value)
      returns (env: Env, row: Row, condition: Expr)
    requires pg.Valid()
    ensures env.catalog.Valid() && Sound(env, row, Planner(true, 1), condition)
    ensures !Selects(env, row, condition) && Selects(env, row, Simplify(Planner(true, 1), condition))
  {
    var t, planner, args := Tag(1, 1, "a", JBool(true)), Planner(true, 1), FieldAndTrue();
    env := Env(Catalog({t}, pg, sha512), other);
    row := map[0 := StoredMap(map[])];
    var call := FuncExpr("tag_v_eq", true, args);
    condition := Not(call);
    FieldOfEmptyMap(env, row, t);
    NullBecomesFalse(env, row, planner, args);
    NotSelects(env, row, call);
    NotSelects(env, row, TagMapRewrite(planner, "tag_v_eq", args).value);
    NothingRewrittenInside(env, row, planner);
    CallSimplified(env, row, planner);
  }

  /** Planning rewrites just the comparison. */
  lemma CallSimplified(env: Env, row: Row, planner: Planner)
    requires TagMapRewrite(planner, "tag_v_eq", FieldAndTrue()).Some? && SoundCall(env, row, FieldAndTrue())
    requires forall i | 0 <= i < |FieldAndTrue()| :: Sound(env, row, planner, FieldAndTrue()[i])
    ensures var condition := Not(FuncExpr("tag_v_eq", true, FieldAndTrue()));
            && Simplify(planner, condition) == Not(TagMapRewrite(planner, "tag_v_eq", FieldAndTrue()).value)
            && Sound(env, row, planner, condition)
  {
    NothingToSimplify(planner);
  }

  lemma NothingRewrittenInside(env: Env, row: Row, planner: Planner)
    ensures forall i | 0 <= i < |FieldAndTrue()| :: Sound(env, row, planner, FieldAndTrue()[i])
  {
    var arrow := FieldAndTrue()[0];
    assert forall i | 0 <= i < |arrow.args[0].args| :: Sound(env, row, planner, arrow.args[0].args[i]);
    assert forall i | 0 <= i < |arrow.args| :: Sound(env, row, planner, arrow.args[i]);
  }
}
