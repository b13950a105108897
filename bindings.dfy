/** The binding rules of one scope frame, on values: where a name is written (set_variable), how a
    whole map or a list of assignments is written, write-once constants, and the top-down search of the
    shared config-variable stack. The class Contexts.Context is proved against these functions. */
module Bindings {
  import opened Values

  /** The two maps set_variable writes into: ordinary (lexical) variables and config (dynamic) variables. */
  datatype Locals = Locals(variables: map<string, Value>, config: map<string, Value>)

  /** The map of a frame that holds names of `name`'s class. */
  function Home(s: Locals, name: string): map<string, Value> {
    if IsConfigVariable(name) then s.config else s.variables
  }

  /** set_variable: a config name goes to the config map only, any other name to the variables map only. */
  function Bind(s: Locals, name: string, v: Value): (r: Locals)
    ensures Get(Home(r, name), name) == Some(v)
    ensures IsConfigVariable(name) ==> r.variables == s.variables
    ensures !IsConfigVariable(name) ==> r.config == s.config
    ensures forall k :: k != name ==> Get(r.variables, k) == Get(s.variables, k) && Get(r.config, k) == Get(s.config, k)
  {
    if IsConfigVariable(name) then s.(config := s.config[name := v])
    else s.(variables := s.variables[name := v])
  }

  /** The entries of `m` whose keys are in `keys`. */
  function Restrict(m: map<string, Value>, keys: set<string>): map<string, Value> {
    map k | k in m && k in keys :: m[k]
  }

  function ConfigPart(m: map<string, Value>): map<string, Value> {
    map k | k in m && IsConfigVariable(k) :: m[k]
  }

  function OrdinaryPart(m: map<string, Value>): map<string, Value> {
    map k | k in m && !IsConfigVariable(k) :: m[k]
  }

  /** The effect of calling set_variable on every entry of `m`, in any order (the keys are distinct). */
  function BindMap(s: Locals, m: map<string, Value>): (r: Locals)
    ensures forall k :: k in m ==> Get(Home(r, k), k) == Some(m[k])
    ensures forall k :: k !in m ==> Get(r.variables, k) == Get(s.variables, k) && Get(r.config, k) == Get(s.config, k)
    ensures forall k :: IsConfigVariable(k) ==> Get(r.variables, k) == Get(s.variables, k)
    ensures forall k :: !IsConfigVariable(k) ==> Get(r.config, k) == Get(s.config, k)
  {
    Locals(s.variables + OrdinaryPart(m), s.config + ConfigPart(m))
  }

  /** Binding none of the entries of a map changes nothing. */
  lemma BindMapNothing(s: Locals, m: map<string, Value>)
    ensures BindMap(s, Restrict(m, {})) == s
  {
    assert Restrict(m, {}) == map[];
    assert OrdinaryPart(map[]) == map[] && ConfigPart(map[]) == map[];
    assert s.variables + map[] == s.variables && s.config + map[] == s.config;
  }

  /** Restricting a map to all its keys gives the map itself. */
  lemma RestrictAll(m: map<string, Value>)
    ensures Restrict(m, m.Keys) == m
  {
  }

  /** Adding one entry to a map adds it to exactly one of its two parts. */
  lemma PartsOfUpdate(m: map<string, Value>, k: string, v: Value)
    ensures IsConfigVariable(k) ==> ConfigPart(m[k := v]) == ConfigPart(m)[k := v] && OrdinaryPart(m[k := v]) == OrdinaryPart(m)
    ensures !IsConfigVariable(k) ==> OrdinaryPart(m[k := v]) == OrdinaryPart(m)[k := v] && ConfigPart(m[k := v]) == ConfigPart(m)
  {
  }

  /** Updating a union at a key is the union with the right-hand side updated. */
  lemma UnionUpdate(a: map<string, Value>, p: map<string, Value>, k: string, v: Value)
    ensures (a + p)[k := v] == a + p[k := v]
  {
  }

  /** Restricting to one more key of `m` adds that key's entry. */
  lemma RestrictStep(m: map<string, Value>, done: set<string>, k: string)
    requires k in m
    ensures Restrict(m, done + {k}) == Restrict(m, done)[k := m[k]]
  {
  }

  /** Binding one more key of `m` extends the part of `m` already bound: the step of a loop over a map. */
  lemma BindMapStep(s: Locals, m: map<string, Value>, done: set<string>, k: string)
    requires k in m && k !in done
    ensures Bind(BindMap(s, Restrict(m, done)), k, m[k]) == BindMap(s, Restrict(m, done + {k}))
  {
    var r0 := Restrict(m, done);
    RestrictStep(m, done, k);
    PartsOfUpdate(r0, k, m[k]);
    if IsConfigVariable(k) {
      UnionUpdate(s.config, ConfigPart(r0), k, m[k]);
    } else {
      UnionUpdate(s.variables, OrdinaryPart(r0), k, m[k]);
    }
  }

  /** The effect of calling set_variable on each pair of `ps`, first to last. */
  function BindAll(s: Locals, ps: seq<(string, Value)>): Locals
    decreases |ps|
  {
    if ps == [] then s
    else Bind(BindAll(s, ps[..|ps| - 1]), ps[|ps| - 1].0, ps[|ps| - 1].1)
  }

  /** One more assignment at the end is one more set_variable. */
  lemma BindAllSnoc(s: Locals, ps: seq<(string, Value)>, p: (string, Value))
    ensures BindAll(s, ps + [p]) == Bind(BindAll(s, ps), p.0, p.1)
  {
    assert (ps + [p])[..|ps|] == ps;
  }

  /** Assigning one sequence and then another is assigning their concatenation. */
  lemma {:induction false} BindAllAppend(s: Locals, ps: seq<(string, Value)>, qs: seq<(string, Value)>)
    ensures BindAll(BindAll(s, ps), qs) == BindAll(s, ps + qs)
    decreases |qs|
  {
    if qs == [] {
      assert ps + qs == ps;
    } else {
      var front := qs[..|qs| - 1];
      BindAllAppend(s, ps, front);
      assert (ps + qs)[..|ps + qs| - 1] == ps + front;
    }
  }

  /** The last assignment to a name wins. */
  lemma {:induction false} BindAllLastWins(s: Locals, ps: seq<(string, Value)>, i: nat)
    requires i < |ps|
    requires forall j :: i < j < |ps| ==> ps[j].0 != ps[i].0
    ensures Get(Home(BindAll(s, ps), ps[i].0), ps[i].0) == Some(ps[i].1)
    decreases |ps|
  {
    if i < |ps| - 1 {
      var init := ps[..|ps| - 1];
      assert forall j :: i < j < |init| ==> init[j].0 != init[i].0;
      BindAllLastWins(s, init, i);
    }
  }

  /** A name no pair assigns keeps its bindings in both maps. */
  lemma {:induction false} BindAllUntouched(s: Locals, ps: seq<(string, Value)>, k: string)
    requires forall j :: 0 <= j < |ps| ==> ps[j].0 != k
    ensures Get(BindAll(s, ps).variables, k) == Get(s.variables, k)
    ensures Get(BindAll(s, ps).config, k) == Get(s.config, k)
    decreases |ps|
  {
    if ps != [] {
      BindAllUntouched(s, ps[..|ps| - 1], k);
    }
  }

  /** A config name never reaches the variables map and an ordinary name never reaches the config map. */
  lemma {:induction false} BindAllKeepsOtherMap(s: Locals, ps: seq<(string, Value)>, k: string)
    ensures IsConfigVariable(k) ==> Get(BindAll(s, ps).variables, k) == Get(s.variables, k)
    ensures !IsConfigVariable(k) ==> Get(BindAll(s, ps).config, k) == Get(s.config, k)
    decreases |ps|
  {
    if ps != [] {
      BindAllKeepsOtherMap(s, ps[..|ps| - 1], k);
    }
  }

  /** The value of a parameter's default expression, or undefined when it has none. */
  function DefaultValue(a: Assignment, evalInParent: Expr -> Value): Value {
    match a.default
    case Some(e) => evalInParent(e)
    case None => Undefined
  }

  /** One (name, default) pair per declared parameter, in declaration order. */
  function DefaultBindings(args: seq<Assignment>, evalInParent: Expr -> Value): (r: seq<(string, Value)>)
    ensures |r| == |args|
    ensures forall i :: 0 <= i < |args| ==> r[i] == (args[i].name, DefaultValue(args[i], evalInParent))
  {
    seq(|args|, i requires 0 <= i < |args| => (args[i].name, DefaultValue(args[i], evalInParent)))
  }

  /** The resolved call-site assignments, none when there is no call site. */
  function CallSiteBindings(callSite: Option<seq<(string, Value)>>): seq<(string, Value)> {
    match callSite
    case Some(ps) => ps
    case None => []
  }

  /** Everything setVariables assigns, in order: the defaults first, then the call site. */
  function ParameterBindings(args: seq<Assignment>, evalInParent: Expr -> Value,
                             callSite: Option<seq<(string, Value)>>): seq<(string, Value)>
  {
    DefaultBindings(args, evalInParent) + CallSiteBindings(callSite)
  }

  /** A value passed at the call site overrides the parameter's default (the last one passed wins). */
  lemma CallSiteOverridesDefault(s: Locals, args: seq<Assignment>, evalInParent: Expr -> Value,
                                 call: seq<(string, Value)>, i: nat)
    requires i < |call|
    requires forall j :: i < j < |call| ==> call[j].0 != call[i].0
    ensures Get(Home(BindAll(s, ParameterBindings(args, evalInParent, Some(call))), call[i].0), call[i].0)
            == Some(call[i].1)
  {
    var ps := ParameterBindings(args, evalInParent, Some(call));
    var d := |args|;
    assert ps[d + i] == call[i];
    assert forall j :: d + i < j < |ps| ==> ps[j] == call[j - d];
    BindAllLastWins(s, ps, d + i);
  }

  /** A declared parameter the call site does not pass is bound to its default (the last declaration wins). */
  lemma DefaultWhenNotPassed(s: Locals, args: seq<Assignment>, evalInParent: Expr -> Value,
                             callSite: Option<seq<(string, Value)>>, i: nat)
    requires i < |args|
    requires forall j :: i < j < |args| ==> args[j].name != args[i].name
    requires forall p :: p in CallSiteBindings(callSite) ==> p.0 != args[i].name
    ensures Get(Home(BindAll(s, ParameterBindings(args, evalInParent, callSite)), args[i].name), args[i].name)
            == Some(DefaultValue(args[i], evalInParent))
  {
    var ps := ParameterBindings(args, evalInParent, callSite);
    var call := CallSiteBindings(callSite);
    assert forall j :: |args| <= j < |ps| ==> ps[j] == call[j - |args|] && ps[j] in call;
    BindAllLastWins(s, ps, i);
  }

  /** A name that is neither declared nor passed (an optional parameter left out, say) is not bound at all. */
  lemma UnlistedNameUntouched(s: Locals, args: seq<Assignment>, evalInParent: Expr -> Value,
                              callSite: Option<seq<(string, Value)>>, k: string)
    requires forall a :: a in args ==> a.name != k
    requires forall p :: p in CallSiteBindings(callSite) ==> p.0 != k
    ensures Get(BindAll(s, ParameterBindings(args, evalInParent, callSite)).variables, k) == Get(s.variables, k)
    ensures Get(BindAll(s, ParameterBindings(args, evalInParent, callSite)).config, k) == Get(s.config, k)
  {
    var ps := ParameterBindings(args, evalInParent, callSite);
    var call := CallSiteBindings(callSite);
    forall j | 0 <= j < |ps| ensures ps[j].0 != k {
      if j < |args| {
        assert args[j] in args;
      } else {
        assert ps[j] == call[j - |args|];
        assert call[j - |args|] in call;
      }
    }
    BindAllUntouched(s, ps, k);
  }

  /** The effect of binding every map of `layers` with BindMap, first to last. */
  function ApplyLayers(s: Locals, layers: seq<map<string, Value>>): Locals
    decreases |layers|
  {
    if layers == [] then s
    else BindMap(ApplyLayers(s, layers[..|layers| - 1]), layers[|layers| - 1])
  }

  /** The value of `name` in the last of `layers` that binds it: the top-down search of a stack. */
  function Innermost(layers: seq<map<string, Value>>, name: string): Option<Value>
    decreases |layers|
  {
    if layers == [] then None
    else if name in layers[|layers| - 1] then Some(layers[|layers| - 1][name])
    else Innermost(layers[..|layers| - 1], name)
  }

  /** The topmost layer that binds a name supplies its value. */
  lemma {:induction false} InnermostWins(layers: seq<map<string, Value>>, name: string, i: nat)
    requires i < |layers| && name in layers[i]
    requires forall j :: i < j < |layers| ==> name !in layers[j]
    ensures Innermost(layers, name) == Some(layers[i][name])
    decreases |layers|
  {
    if i < |layers| - 1 {
      InnermostWins(layers[..|layers| - 1], name, i);
    }
  }

  /** The search finds nothing exactly when no layer binds the name. */
  lemma {:induction false} InnermostNone(layers: seq<map<string, Value>>, name: string)
    ensures Innermost(layers, name).None? <==> forall i :: 0 <= i < |layers| ==> name !in layers[i]
    decreases |layers|
  {
    if layers != [] {
      InnermostNone(layers[..|layers| - 1], name);
    }
  }

  /** Applying layers ancestor-first leaves each config name bound to its innermost layer's value,
      which is the value the top-down stack search gives; with no layer binding it, the old binding stays. */
  lemma {:induction false} ApplyLayersInnermost(s: Locals, layers: seq<map<string, Value>>, name: string)
    requires IsConfigVariable(name)
    ensures Get(ApplyLayers(s, layers).config, name)
            == (if Innermost(layers, name).Some? then Innermost(layers, name) else Get(s.config, name))
    ensures Get(ApplyLayers(s, layers).variables, name) == Get(s.variables, name)
    decreases |layers|
  {
    if layers != [] {
      ApplyLayersInnermost(s, layers[..|layers| - 1], name);
    }
  }

  /** set_constant: the first definition of a name wins; a redefinition changes nothing and is reported once. */
  function DefineConstant(constants: map<string, Value>, name: string, v: Value): (r: (map<string, Value>, seq<Warning>))
    ensures name in r.0 && r.0[name] == (if name in constants then constants[name] else v)
    ensures forall k :: k != name ==> Get(r.0, k) == Get(constants, k)
    ensures |r.1| == (if name in constants then 1 else 0)
    ensures forall w :: w in r.1 ==> w == ConstantRedefinition(name)
  {
    if name in constants then (constants, [ConstantRedefinition(name)])
    else (constants[name := v], [])
  }

  /** Defining a name twice keeps the first value and produces exactly one diagnostic. */
  lemma ConstantFirstWriteWins(constants: map<string, Value>, name: string, v1: Value, v2: Value)
    requires name !in constants
    ensures var (c1, w1) := DefineConstant(constants, name, v1);
            var (c2, w2) := DefineConstant(c1, name, v2);
            c2 == constants[name := v1] && w1 + w2 == [ConstantRedefinition(name)]
  {
  }
}
