/** The scope frame of the evaluator (class Context of src/engine/context.cc): one frame in a chain of
    parent links, holding ordinary variables (lexical scope, searched up the parent chain), write-once
    constants (consulted at the root frame only) and config variables (dynamic scope, searched through
    the stack of frames shared by a whole tree). Diagnostics are returned as `warnings` rather than sent
    to a global log. */
module Contexts {
  import opened Values
  import opened Bindings

  /** The stack of frames shared by every context of one tree; config lookups scan it from the top. */
  class ContextStack {
    var frames: seq<Context>

    constructor ()
      ensures frames == []
    {
      frames := [];
    }
  }

  /** The document path shared by every context of one tree. */
  class DocumentPath {
    var path: string

    constructor ()
      ensures path == ""
    {
      path := "";
    }
  }

  /** The config maps of `frames`, bottom to top. */
  ghost function ConfigLayers(frames: seq<Context>): (r: seq<map<string, Value>>)
    reads frames
    ensures |r| == |frames|
    ensures forall i :: 0 <= i < |frames| ==> r[i] == frames[i].configVariables
  {
    seq(|frames|, i requires 0 <= i < |frames| reads frames => frames[i].configVariables)
  }

  /** The config maps of `frames`, last frame first: for a stretch of a parent chain, the outermost first. */
  ghost function OutermostFirst(frames: seq<Context>): (r: seq<map<string, Value>>)
    reads frames
    ensures |r| == |frames|
    ensures forall i :: 0 <= i < |frames| ==> r[|frames| - 1 - i] == frames[i].configVariables
    decreases |frames|
  {
    if frames == [] then [] else OutermostFirst(frames[1..]) + [frames[0].configVariables]
  }

  /** A config lookup gives the value of the topmost frame on the stack that binds the name. */
  lemma ConfigLookupFindsTopmost(frames: seq<Context>, name: string, i: nat)
    requires i < |frames| && name in frames[i].configVariables
    requires forall j :: i < j < |frames| ==> name !in frames[j].configVariables
    ensures Innermost(ConfigLayers(frames), name) == Some(frames[i].configVariables[name])
  {
    InnermostWins(ConfigLayers(frames), name, i);
  }

  /** POSIX reading of an absolute path: it starts at the root directory. */
  predicate IsAbsolutePath(p: string) {
    |p| > 0 && p[0] == '/'
  }

  class Context {
    const parent: Context?
    ghost const depth: nat
    const stack: ContextStack
    const documentPath: DocumentPath
    var variables: map<string, Value>
    var configVariables: map<string, Value>
    var constants: map<string, Value>

    /** The parent chain is finite and every frame shares its parent's stack and document path. */
    ghost predicate Linked()
      decreases depth
    {
      parent != null ==>
        && parent.depth < depth
        && parent.stack == stack
        && parent.documentPath == documentPath
        && parent.Linked()
    }

    /** A child frame shares its parent's stack and document path; a root frame gets fresh, empty ones. */
    constructor (parent: Context?)
      requires parent != null ==> parent.Linked()
      ensures this.parent == parent && Linked()
      ensures parent == null ==> fresh(stack) && stack.frames == [] && fresh(documentPath) && documentPath.path == ""
      ensures parent != null ==> stack == parent.stack && documentPath == parent.documentPath
      ensures variables == map[] && configVariables == map[] && constants == map[]
    {
      this.parent := parent;
      if parent != null {
        depth := parent.depth + 1;
        stack := parent.stack;
        documentPath := parent.documentPath;
      } else {
        depth := 0;
        stack := new ContextStack();
        documentPath := new DocumentPath();
      }
      variables := map[];
      configVariables := map[];
      constants := map[];
    }

    /** This frame, its parent, and so on up to the root. */
    ghost function Ancestors(): (r: seq<Context>)
      requires Linked()
      ensures |r| >= 1 && r[0] == this
      decreases depth
    {
      [this] + (if parent == null then [] else parent.Ancestors())
    }

    /** The frames of Ancestors(), as a set: what a lexical lookup may read. */
    ghost function Chain(): set<Context>
      requires Linked()
      decreases depth
    {
      {this} + (if parent == null then {} else parent.Chain())
    }

    /** The root of the chain owns the stack and the document path every frame of the chain uses. */
    ghost function Root(): (r: Context)
      requires Linked()
      ensures r.parent == null && r.Linked()
      ensures r.stack == stack && r.documentPath == documentPath
      decreases depth
    {
      if parent == null then this else parent.Root()
    }

    /** No frame of the chain is deeper than this one. */
    lemma {:induction false} ChainNoDeeper()
      requires Linked()
      ensures forall a :: a in Chain() ==> a.depth <= depth
      decreases depth
    {
      if parent != null {
        parent.ChainNoDeeper();
      }
    }

    /** Every frame of the chain exists already: the parent links only lead to allocated frames. */
    lemma {:induction false} ChainAllocated()
      requires Linked()
      ensures forall a :: a in Chain() ==> allocated(a)
      decreases depth
    {
      if parent != null {
        parent.ChainAllocated();
      }
    }

    /** A child frame is not on its parent's chain, so nothing the parent looks up lexically reads it. */
    lemma ChildOutsideParentChain()
      requires Linked() && parent != null
      ensures this !in parent.Chain()
    {
      parent.ChainNoDeeper();
    }

    /** The frame's own variable and config maps. */
    function Local(): Locals
      reads this
    {
      Locals(variables, configVariables)
    }

    predicate HasLocalVariable(name: string)
      reads this
    {
      if IsConfigVariable(name) then name in configVariables
      else if parent == null && name in constants then true
      else name in variables
    }

    function LookupLocalConfigVariable(name: string): (r: Value)
      reads this
      ensures IsConfigVariable(name) && HasLocalVariable(name) ==> Get(configVariables, name) == Some(r)
      ensures !(IsConfigVariable(name) && HasLocalVariable(name)) ==> r == Undefined
    {
      if IsConfigVariable(name) && name in configVariables then configVariables[name] else Undefined
    }

    /** The value an ordinary name has in this frame itself: a constant at the root, else a variable. */
    ghost function LocalValue(name: string): Value
      requires !IsConfigVariable(name) && HasLocalVariable(name)
      reads this
    {
      if parent == null && name in constants then constants[name] else variables[name]
    }

    /** Lexical lookup: constants (root only), then the frame's variables, then the parent. */
    ghost function LexicalLookup(name: string): Option<Value>
      requires Linked()
      reads Chain()
      decreases depth
    {
      if parent == null && name in constants then Some(constants[name])
      else if name in variables then Some(variables[name])
      else if parent != null then parent.LexicalLookup(name)
      else None
    }

    /** Dynamic lookup: the topmost frame of the shared stack that binds the name. */
    ghost function ConfigLookup(name: string): Option<Value>
      reads stack, stack.frames
    {
      Innermost(ConfigLayers(stack.frames), name)
    }

    /** What lookup_variable finds, if anything. */
    ghost function Resolve(name: string): Option<Value>
      requires Linked()
      reads stack, stack.frames, Chain()
    {
      if IsConfigVariable(name) then ConfigLookup(name) else LexicalLookup(name)
    }

    /** An ordinary name resolves to the binding of the nearest frame on the chain that has it locally. */
    lemma {:induction false} LexicalInnermost(name: string, k: nat)
      requires Linked() && !IsConfigVariable(name)
      requires k < |Ancestors()| && Ancestors()[k].HasLocalVariable(name)
      requires forall j :: 0 <= j < k ==> !Ancestors()[j].HasLocalVariable(name)
      ensures LexicalLookup(name) == Some(Ancestors()[k].LocalValue(name))
      decreases depth
    {
      if k > 0 {
        assert !HasLocalVariable(name);
        AncestorsStep();
        parent.LexicalInnermost(name, k - 1);
      }
    }

    /** has_local_variable decides where an ordinary lookup ends: a frame that has the name answers with
        its own value, and one that does not defers to its parent, or finds nothing at the root. */
    lemma LocalBindingShadowsParent(name: string)
      requires Linked() && !IsConfigVariable(name)
      ensures HasLocalVariable(name) ==> LexicalLookup(name) == Some(LocalValue(name))
      ensures !HasLocalVariable(name) && parent != null ==> LexicalLookup(name) == parent.LexicalLookup(name)
      ensures !HasLocalVariable(name) && parent == null ==> LexicalLookup(name) == None
    {
    }

    /** Ancestors() is this frame followed by its parent's ancestors. */
    lemma AncestorsStep()
      requires Linked() && parent != null
      ensures Ancestors() == [this] + parent.Ancestors()
      ensures forall j :: 0 <= j < |parent.Ancestors()| ==> Ancestors()[j + 1] == parent.Ancestors()[j]
    {
    }

    /** An ordinary name is unresolved exactly when no frame on the chain has it locally. */
    lemma {:induction false} LexicalUnresolved(name: string)
      requires Linked() && !IsConfigVariable(name)
      ensures LexicalLookup(name).None? ==> forall k :: 0 <= k < |Ancestors()| ==> !Ancestors()[k].HasLocalVariable(name)
      ensures LexicalLookup(name).Some? ==> exists k :: 0 <= k < |Ancestors()| && Ancestors()[k].HasLocalVariable(name)
      decreases depth
    {
      var all := Ancestors();
      if HasLocalVariable(name) {
        assert LexicalLookup(name).Some?;
        assert all[0].HasLocalVariable(name);
      } else if parent == null {
        assert all == [this];
      } else {
        parent.LexicalUnresolved(name);
        AncestorsStep();
        var up := parent.Ancestors();
        if LexicalLookup(name).None? {
          assert parent.LexicalLookup(name).None?;
          forall k | 0 <= k < |all| ensures !all[k].HasLocalVariable(name) {
            if k > 0 {
              assert all[k] == up[k - 1];
            }
          }
        } else {
          assert parent.LexicalLookup(name).Some?;
          var j :| 0 <= j < |up| && up[j].HasLocalVariable(name);
          assert all[j + 1] == up[j];
        }
      }
    }

    /** When this frame is on top of the stack, a config name it binds resolves to its own value. */
    lemma TopFrameConfigWins(name: string)
      requires IsConfigVariable(name) && HasLocalVariable(name)
      requires stack.frames != [] && stack.frames[|stack.frames| - 1] == this
      ensures ConfigLookup(name) == Some(LookupLocalConfigVariable(name))
    {
      ConfigLookupFindsTopmost(stack.frames, name, |stack.frames| - 1);
    }

    /** lookup_variable: the value found (undefined if none), and a warning for an unresolved name
        unless `silent`. */
    method LookupVariable(name: string, silent: bool, loc: Location) returns (v: Value, warnings: seq<Warning>)
      requires Linked()
      ensures v == ValueOr(Resolve(name))
      ensures warnings == if Resolve(name).None? && !silent then [UnknownVariable(name, loc, documentPath.path)] else []
      decreases depth
    {
      if IsConfigVariable(name) {
        ghost var layers := ConfigLayers(stack.frames);
        var i := |stack.frames| - 1;
        assert layers[..i + 1] == layers;
        while i >= 0
          invariant -1 <= i < |stack.frames|
          invariant Innermost(layers[..i + 1], name) == Innermost(layers, name)
          decreases i
        {
          var confvars := stack.frames[i].configVariables;
          assert layers[..i + 1][..i] == layers[..i];
          if name in confvars {
            return confvars[name], [];
          }
          i := i - 1;
        }
        warnings := if silent then [] else [UnknownVariable(name, loc, documentPath.path)];
        return Undefined, warnings;
      }
      if parent == null && name in constants {
        return constants[name], [];
      }
      if name in variables {
        return variables[name], [];
      }
      if parent != null {
        v, warnings := parent.LookupVariable(name, silent, loc);
        return;
      }
      warnings := if silent then [] else [UnknownVariable(name, loc, documentPath.path)];
      v := Undefined;
    }

    /** lookup_variable_with_default for numbers: the number found, silently, or the default. */
    method LookupNumberWithDefault(name: string, default: real, loc: Location) returns (r: real)
      requires Linked()
      ensures r == if ValueOr(Resolve(name)).Number? then ValueOr(Resolve(name)).n else default
    {
      var v, _ := LookupVariable(name, true, loc);
      r := if v.Number? then v.n else default;
    }

    /** lookup_variable_with_default for strings: the string found, silently, or the default. */
    method LookupStringWithDefault(name: string, default: string, loc: Location) returns (r: string)
      requires Linked()
      ensures r == if ValueOr(Resolve(name)).Text? then ValueOr(Resolve(name)).s else default
    {
      var v, _ := LookupVariable(name, true, loc);
      r := if v.Text? then v.s else default;
    }

    /** set_variable: routes the name to the config map or the variables map. */
    method SetVariable(name: string, v: Value)
      modifies this
      ensures Local() == Bind(old(Local()), name, v)
      ensures constants == old(constants)
      ensures HasLocalVariable(name)
    {
      if IsConfigVariable(name) {
        configVariables := configVariables[name := v];
      } else {
        variables := variables[name := v];
      }
    }

    /** set_variable on every entry of `m`. */
    method SetEach(m: map<string, Value>)
      modifies this
      ensures Local() == BindMap(old(Local()), m)
      ensures constants == old(constants)
    {
      var todo := m.Keys;
      ghost var done: set<string> := {};
      BindMapNothing(Local(), m);
      while todo != {}
        invariant todo <= m.Keys && done == m.Keys - todo
        invariant Local() == BindMap(old(Local()), Restrict(m, done))
        invariant constants == old(constants)
        decreases todo
      {
        var k :| k in todo;
        BindMapStep(old(Local()), m, done, k);
        SetVariable(k, m[k]);
        todo := todo - {k};
        done := done + {k};
      }
      assert done == m.Keys;
      RestrictAll(m);
    }

    /** set_constant: first write wins; a redefinition is reported and ignored. */
    method SetConstant(name: string, v: Value) returns (warnings: seq<Warning>)
      modifies this
      ensures (constants, warnings) == DefineConstant(old(constants), name, v)
      ensures Local() == old(Local())
    {
      if name in constants {
        warnings := [ConstantRedefinition(name)];
      } else {
        constants := constants[name := v];
        warnings := [];
      }
    }

    /** apply_variables: set_variable on every variable of `other`. */
    method ApplyVariables(other: Context)
      modifies this
      ensures Local() == BindMap(old(Local()), old(other.variables))
      ensures constants == old(constants)
    {
      SetEach(other.variables);
    }

    /** The config maps apply_config_variables applies: those of `other`'s ancestors, outermost first,
        then `other`'s own, stopping below the first frame on the way up that is this frame. */
    ghost function ConfigWalk(other: Context): seq<map<string, Value>>
      requires other.Linked()
      reads other.Chain()
      decreases other.depth
    {
      if other == this then []
      else (if other.parent == null then [] else ConfigWalk(other.parent)) + [other.configVariables]
    }

    /** One step of the walk up from a frame other than this one: its parent's walk, then its own map. */
    lemma ConfigWalkStep(other: Context)
      requires other.Linked() && other != this && other.parent != null
      ensures ConfigWalk(other) == ConfigWalk(other.parent) + [other.configVariables]
    {
    }

    /** The walk applies the config maps of the frames of `other`'s chain below the first occurrence of
        this frame (all of them when this frame is not on the chain; at index `k` otherwise), the
        outermost of them first. */
    lemma {:induction false} ConfigWalkStopsAtThis(other: Context, k: nat)
      requires other.Linked() && k <= |other.Ancestors()|
      requires k < |other.Ancestors()| ==> other.Ancestors()[k] == this
      requires forall j :: 0 <= j < k ==> other.Ancestors()[j] != this
      ensures ConfigWalk(other) == OutermostFirst(other.Ancestors()[..k])
      decreases other.depth
    {
      var all := other.Ancestors();
      if k == 0 {
        assert other == all[0] == this;
        assert all[..0] == [];
      } else {
        assert other == all[0] != this;
        var outer: seq<map<string, Value>> := [];
        var up: seq<Context> := [];
        if other.parent != null {
          up := other.parent.Ancestors();
          assert all == [other] + up;
          forall j | 0 <= j < k - 1 ensures up[j] != this {
            assert up[j] == all[j + 1];
          }
          if k - 1 < |up| {
            assert up[k - 1] == all[k];
          }
          ConfigWalkStopsAtThis(other.parent, k - 1);
          outer := ConfigWalk(other.parent);
        } else {
          assert all == [other];
        }
        assert ConfigWalk(other) == outer + [other.configVariables];
        assert all[..k] == [other] + up[..k - 1];
        assert all[..k][1..] == up[..k - 1];
      }
    }

    /** apply_config_variables: ancestors of `other` first, so the innermost frame's value wins. */
    method ApplyConfigVariables(other: Context)
      requires other.Linked()
      modifies this
      ensures Local() == ApplyLayers(old(Local()), old(ConfigWalk(other)))
      ensures constants == old(constants)
      decreases other.depth
    {
      if other == this {
        return;
      }
      ghost var outer: seq<map<string, Value>> := [];
      if other.parent != null {
        outer := ConfigWalk(other.parent);
        ApplyConfigVariables(other.parent);
      }
      ghost var mid := Local();
      SetEach(other.configVariables);
      ghost var walk := outer + [other.configVariables];
      assert walk[..|walk| - 1] == outer;
      assert ApplyLayers(old(Local()), walk) == BindMap(mid, other.configVariables);
    }

    /** setVariables: every declared parameter gets its default (or undefined), evaluated in the parent;
        then, when there is a call site, its resolved assignments are set, overriding the defaults. */
    method SetVariables(callSite: Option<seq<(string, Value)>>, args: seq<Assignment>, evalInParent: Expr -> Value)
      modifies this
      ensures Local() == BindAll(old(Local()), ParameterBindings(args, evalInParent, callSite))
      ensures constants == old(constants)
    {
      ghost var defaults := DefaultBindings(args, evalInParent);
      for i := 0 to |args|
        invariant Local() == BindAll(old(Local()), defaults[..i])
        invariant constants == old(constants)
      {
        BindAllSnoc(old(Local()), defaults[..i], defaults[i]);
        assert defaults[..i + 1] == defaults[..i] + [defaults[i]];
        SetVariable(args[i].name, DefaultValue(args[i], evalInParent));
      }
      assert defaults[..|args|] == defaults;
      if callSite.Some? {
        SetInOrder(callSite.value);
      }
      BindAllAppend(old(Local()), defaults, CallSiteBindings(callSite));
    }

    /** The call-site half of setVariables: each resolved assignment is set in order. */
    method SetInOrder(assignments: seq<(string, Value)>)
      modifies this
      ensures Local() == BindAll(old(Local()), assignments)
      ensures constants == old(constants)
    {
      for j := 0 to |assignments|
        invariant Local() == BindAll(old(Local()), assignments[..j])
        invariant constants == old(constants)
      {
        BindAllSnoc(old(Local()), assignments[..j], assignments[j]);
        assert assignments[..j + 1] == assignments[..j] + [assignments[j]];
        SetVariable(assignments[j].0, assignments[j].1);
      }
      assert assignments[..|assignments|] == assignments;
    }

    /** push: adds a frame on top of the shared stack. */
    method Push(ctx: Context)
      modifies stack
      ensures stack.frames == old(stack.frames) + [ctx]
    {
      stack.frames := stack.frames + [ctx];
    }

    /** pop: removes the top frame of the shared stack. */
    method Pop()
      requires stack.frames != []
      modifies stack
      ensures stack.frames == old(stack.frames)[..|old(stack.frames)| - 1]
    {
      stack.frames := stack.frames[..|stack.frames| - 1];
    }

    /** The first frame on the chain, from this one up, whose own table handles `name`. */
    ghost function Handler<T>(name: string, table: map<Context, map<string, T>>): Option<T>
      requires Linked()
      decreases depth
    {
      if this in table && name in table[this] then Some(table[this][name])
      else if parent != null then parent.Handler(name, table)
      else None
    }

    /** The nearest frame on the chain that handles a name is the one that handles it. */
    lemma {:induction false} HandlerInnermost<T>(name: string, table: map<Context, map<string, T>>, k: nat)
      requires Linked() && k < |Ancestors()|
      requires Ancestors()[k] in table && name in table[Ancestors()[k]]
      requires forall j :: 0 <= j < k ==> !(Ancestors()[j] in table && name in table[Ancestors()[j]])
      ensures Handler(name, table) == Some(table[Ancestors()[k]][name])
      decreases depth
    {
      if k > 0 {
        AncestorsStep();
        parent.HandlerInnermost(name, table, k - 1);
      }
    }

    /** A name is unhandled exactly when no frame on the chain handles it. */
    lemma {:induction false} HandlerMissing<T>(name: string, table: map<Context, map<string, T>>)
      requires Linked()
      ensures Handler(name, table).None? ==>
              forall k :: 0 <= k < |Ancestors()| ==> !(Ancestors()[k] in table && name in table[Ancestors()[k]])
      ensures Handler(name, table).Some? ==>
              exists k :: 0 <= k < |Ancestors()| && Ancestors()[k] in table && name in table[Ancestors()[k]]
      decreases depth
    {
      var all := Ancestors();
      if this in table && name in table[this] {
        assert all[0] in table && name in table[all[0]];
      } else if parent == null {
        assert all == [this];
      } else {
        parent.HandlerMissing(name, table);
        AncestorsStep();
        var up := parent.Ancestors();
        if Handler(name, table).None? {
          assert parent.Handler(name, table).None?;
          forall k | 0 <= k < |all| ensures !(all[k] in table && name in table[all[k]]) {
            if k > 0 {
              assert all[k] == up[k - 1];
            }
          }
        } else {
          assert parent.Handler(name, table).Some?;
          var j :| 0 <= j < |up| && up[j] in table && name in table[up[j]];
          assert all[j + 1] == up[j];
        }
      }
    }

    /** evaluate_function: falls back to the parent until some frame handles the call; at the root an
        unhandled call gives undefined and one warning. `functions` stands for the frames' own tables. */
    method EvaluateFunction(name: string, loc: Location, functions: map<Context, map<string, Value>>)
      returns (v: Value, warnings: seq<Warning>)
      requires Linked()
      ensures v == ValueOr(Handler(name, functions))
      ensures warnings == if Handler(name, functions).None? then [UnknownFunction(name, loc, documentPath.path)] else []
      decreases depth
    {
      if this in functions && name in functions[this] {
        return functions[this][name], [];
      }
      if parent != null {
        v, warnings := parent.EvaluateFunction(name, loc, functions);
        return;
      }
      return Undefined, [UnknownFunction(name, loc, documentPath.path)];
    }

    /** instantiate_module: falls back to the parent until some frame handles the instantiation; at the
        root an unhandled one gives no node and one warning. `modules` stands for the frames' own tables. */
    method InstantiateModule(name: string, loc: Location, modules: map<Context, map<string, Node>>)
      returns (node: Option<Node>, warnings: seq<Warning>)
      requires Linked()
      ensures node == Handler(name, modules)
      ensures warnings == if node.None? then [UnknownModule(name, loc, documentPath.path)] else []
      decreases depth
    {
      if this in modules && name in modules[this] {
        return Some(modules[this][name]), [];
      }
      if parent != null {
        node, warnings := parent.InstantiateModule(name, loc, modules);
        return;
      }
      return None, [UnknownModule(name, loc, documentPath.path)];
    }

    /** getAbsolutePath: an empty or absolute file name is returned unchanged; a relative one is resolved
        against the document path by `absolute`, which stands for the filesystem library. */
    function GetAbsolutePath(filename: string, absolute: (string, string) -> string): (r: string)
      reads documentPath
      ensures filename == "" || IsAbsolutePath(filename) ==> r == filename
      ensures filename != "" && !IsAbsolutePath(filename) ==> r == absolute(documentPath.path, filename)
    {
      if filename != "" && !IsAbsolutePath(filename) then absolute(documentPath.path, filename) else filename
    }
  }

  /** Every frame of one tree sees the same config bindings, whatever its parent chain. */
  lemma SameTreeSameConfig(a: Context, b: Context, name: string)
    requires a.Linked() && b.Linked() && a.Root() == b.Root() && IsConfigVariable(name)
    ensures a.Resolve(name) == b.Resolve(name)
  {
  }

  /** Binding an ordinary name in a child frame makes it visible there and leaves every lexical lookup
      from the parent unchanged. */
  method BindInChildStaysLocal(child: Context, name: string, v: Value, other: string)
    requires child.Linked() && child.parent != null && !IsConfigVariable(name)
    modifies child
    ensures child.LexicalLookup(name) == Some(v)
    ensures child.parent.LexicalLookup(other) == old(child.parent.LexicalLookup(other))
  {
    child.ChildOutsideParentChain();
    child.parent.ChainAllocated();
    child.SetVariable(name, v);
    child.LexicalInnermost(name, 0);
  }
}
