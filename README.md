# OpenSCAD scope frames in Dafny

This project models the scope engine of the OpenSCAD evaluator: the class `Context` of
`src/engine/context.cc`. A context is one frame in a chain of parent links, and two scoping rules
live side by side in it.

- **Ordinary variables** have lexical scope. A lookup tries the root's write-once `constants` (only
  when the frame has no parent), then the frame's own `variables`, and then goes on to the parent.
- **Config variables** have dynamic scope. These are the names that start with `$`, except
  `$children`. Every frame of one tree shares a single stack of frames, and a lookup scans that
  stack from the top down.

Around these two rules sit the write operations:

- `set_variable` sends a name to the map of its class.
- `set_constant` is first-write-wins.
- `apply_variables` copies another frame's variables.
- `apply_config_variables` copies the config variables of another frame's chain, ancestors first.
- `setVariables` binds parameter defaults and then the call-site arguments.
- `push` and `pop` work on the shared stack.
- Function calls and module instantiations fall back from frame to parent until the root, which
  reports the unknown name.

The project has three files:

- `values.dfy` (module `Values`): script values, diagnostics and the config-name test.
- `bindings.dfy` (module `Bindings`): the write and search rules on plain values. It has a frame's
  two maps (`Locals`), `Bind`, `BindMap`, `BindAll` and `ApplyLayers` for the writes, `Innermost`
  for the top-down stack search, and `DefineConstant`. The lemmas prove last-write-wins,
  innermost-wins and "nothing else changes" about them.
- `context.dfy` (module `Contexts`): the heap model.
  - `Context` is a class with a `const` parent link, a ghost depth for termination, and its three
    maps as fields.
  - It shares a `ContextStack` object and a `DocumentPath` object with the rest of its tree.
  - The methods that write a frame's maps (`SetVariable`, `SetConstant`, `ApplyVariables`,
    `ApplyConfigVariables`, `SetVariables`) are proved to produce the state the matching
    `Bindings` function describes. `Push` and `Pop` state the new stack outright.
  - `LookupVariable` and the two typed lookups built on it are proved to return what the
    specification function `Resolve` (lexical or dynamic lookup) describes. `EvaluateFunction`
    and `InstantiateModule` are proved to return what `Handler` (the dispatch fallback)
    describes. `LookupLocalConfigVariable` reads only the frame's own config map.
  - The diagnostics that the source sends to its global log are returned here as a `warnings`
    sequence.

## Model

| member | source | states |
|---|---|---|
| Values.IsConfigVariable | src/engine/context.cc:43-46 | a name is a config variable exactly when it starts with `$` and is not `$children`; the empty name is not one |
| Contexts.Context.constructor | src/engine/context.cc:53-64 | a child frame shares its parent's stack and document path; a root frame gets a fresh empty stack and an empty document path; all maps start empty |
| Contexts.Context.Root | src/engine/context.cc:53-64 | following the parent links ends at a root frame, which owns the stack and document path that every frame of the chain uses |
| Contexts.SameTreeSameConfig | src/engine/context.cc:53-64 | two frames of the same tree resolve every config name to the same value, whatever their parent chains |
| Contexts.Context.Push | src/engine/context.cc:71-74 | the shared stack gains the new frame on top, and the earlier entries are unchanged |
| Contexts.Context.Pop | src/engine/context.cc:76-80 | the top entry of the shared stack is removed, and the earlier entries are unchanged |
| Contexts.Context.SetVariables | src/engine/context.cc:86-99 | the frame ends as if every parameter were bound to its default (undefined when there is none), evaluated in the parent, in declaration order, and then every call-site assignment were bound in order |
| Contexts.Context.SetInOrder | src/engine/context.cc:93-98 | binding the call-site assignments one by one has the effect of `BindAll` on them |
| Bindings.BindAllAppend | src/engine/context.cc:86-99 | binding the defaults and then the call-site assignments is binding their concatenation |
| Bindings.CallSiteOverridesDefault | src/engine/context.cc:93-98 | a value passed at the call site is what the parameter holds afterwards, whatever its default, when no later call-site assignment names it |
| Bindings.DefaultWhenNotPassed | src/engine/context.cc:89-91 | a declared parameter that the call site does not pass holds its default |
| Bindings.UnlistedNameUntouched | src/engine/context.cc:86-99 | a name that is neither declared nor passed (an optional parameter left out) keeps its old bindings in both maps |
| Contexts.Context.SetVariable | src/engine/context.cc:101-105 | the name is bound in the map of its class only; the other map, every other key and the constants are unchanged; afterwards the frame has the name locally |
| Bindings.Bind | src/engine/context.cc:101-105 | a config name lands in the config map only and any other name in the variables map only, and every other key is unchanged in both maps |
| Bindings.BindAllLastWins | src/engine/context.cc:101-105 | after a sequence of set_variable calls, a name holds the value of the last call that named it |
| Bindings.BindAllUntouched | src/engine/context.cc:101-105 | a sequence of set_variable calls that never names a key leaves that key's bindings unchanged |
| Bindings.BindAllKeepsOtherMap | src/engine/context.cc:101-105 | no sequence of set_variable calls writes a config name into the variables map or an ordinary name into the config map |
| Contexts.Context.SetConstant | src/engine/context.cc:112-120 | the constants become those `DefineConstant` gives and the warnings are its warnings; the variable maps are unchanged |
| Bindings.DefineConstant | src/engine/context.cc:112-120 | first write wins: a defined name keeps its value and produces exactly one redefinition warning; an undefined name is added with no warning; other names are unchanged |
| Bindings.ConstantFirstWriteWins | src/engine/context.cc:112-120 | defining a fresh name twice keeps the first value and reports exactly one redefinition |
| Contexts.Context.ApplyVariables | src/engine/context.cc:127-132 | the frame ends as if set_variable were called for every variable of the other frame |
| Contexts.Context.SetEach | src/engine/context.cc:129-131 | the loop of set_variable calls over a map has the effect of `BindMap`, whatever order the keys are visited in |
| Bindings.BindMap | src/engine/context.cc:129-131 | every key of the map is bound in the map of its class, and every key not in it, or in the other class, keeps its binding |
| Bindings.BindMapStep | src/engine/context.cc:129-131 | binding one more entry of the map extends the part of the map already bound |
| Contexts.Context.ApplyConfigVariables | src/engine/context.cc:137-150 | the frame ends as if the config maps of the other frame's chain were applied ancestors first, stopping at this frame |
| Contexts.Context.ConfigWalkStopsAtThis | src/engine/context.cc:139-146 | the maps applied are exactly the config maps of the frames of the other chain below the first occurrence of this frame (all of them when this frame is not on it), outermost first; none when the other frame is this one |
| Bindings.ApplyLayersInnermost | src/engine/context.cc:143-149 | after applying the layers ancestors first, each config name holds the value of the innermost layer that binds it, or its old value when none does; the variables map is unchanged at that name |
| Contexts.Context.LookupVariable | src/engine/context.cc:152-180 | the value is what `Resolve` finds, or undefined; exactly one unknown-variable warning is returned when nothing is found and the lookup is not silent, and none otherwise |
| Bindings.InnermostWins | src/engine/context.cc:156-161 | the top-down stack search returns the value of the topmost frame that binds the name |
| Bindings.InnermostNone | src/engine/context.cc:156-165 | the stack search finds nothing exactly when no frame on the stack binds the name |
| Contexts.ConfigLookupFindsTopmost | src/engine/context.cc:155-161 | a config lookup returns the value of the most recently pushed frame that binds the name |
| Contexts.Context.TopFrameConfigWins | src/engine/context.cc:195-203 | when this frame is on top of the stack and binds a config name, the config lookup gives the frame's local config value |
| Contexts.Context.LocalBindingShadowsParent | src/engine/context.cc:205-214 | has_local_variable decides where an ordinary lookup ends: a frame that has the name (a root constant or its own variable) answers with its own value; one that does not defers to its parent, and the root then finds nothing |
| Contexts.Context.LexicalInnermost | src/engine/context.cc:167-175 | an ordinary name resolves to the local value (root constant or variable) of the nearest frame on the parent chain that has it locally |
| Contexts.Context.LexicalUnresolved | src/engine/context.cc:167-179 | an ordinary name is unresolved exactly when no frame on the parent chain has it locally |
| Contexts.Context.ChildOutsideParentChain | src/engine/context.cc:173-175 | a child frame is never on its parent's chain, so no lexical lookup from the parent reads it |
| Contexts.BindInChildStaysLocal | src/engine/context.cc:170-175 | binding an ordinary name in a child frame makes it visible from the child and changes no lexical lookup from the parent |
| Contexts.Context.LookupNumberWithDefault | src/engine/context.cc:183-187 | the number found by the lookup, or the default when the value found is not a number or nothing is found |
| Contexts.Context.LookupStringWithDefault | src/engine/context.cc:189-193 | the string found by the lookup, or the default when the value found is not a string or nothing is found |
| Contexts.Context.LookupLocalConfigVariable | src/engine/context.cc:195-203 | the frame's own value of a config name it has locally, and undefined for an ordinary name or a config name it does not have |
| Contexts.Context.EvaluateFunction | src/engine/context.cc:233-238 | the call goes to the nearest frame on the chain that handles it; with none, the result is undefined with exactly one unknown-function warning |
| Contexts.Context.InstantiateModule | src/engine/context.cc:240-245 | the instantiation goes to the nearest frame on the chain that handles it; with none, there is no node and exactly one unknown-module warning |
| Contexts.Context.HandlerInnermost | src/engine/context.cc:233-245 | the nearest frame on the chain that handles a name is the one whose handler is used |
| Contexts.Context.HandlerMissing | src/engine/context.cc:233-245 | a name is unhandled exactly when no frame on the chain handles it |
| Contexts.Context.GetAbsolutePath | src/engine/context.cc:250-258 | an empty or absolute file name is returned unchanged; a relative one is resolved against the document path |

## Left out

- `Context::dump` is left out: it is a DEBUG-only text formatter with no effect on scope.
- Contexts.Context.GetAbsolutePath: the filesystem call that makes a relative path absolute is a function parameter. The absolute-path test is the POSIX rule (a leading `/`); drive letters and the other platforms' rules are not modelled.
- Memory management is left out: the `new`/`delete` of the stack, the destructor and `shared_ptr` ownership. Frames are heap objects whose lifetime Dafny manages.
- `EvalContext::resolveArguments` and `Expression::evaluate` are not part of this model. The call site is given as its already resolved (name, value) pairs, with `None` meaning that there is no evaluation context. Default expressions are evaluated by a function parameter that stands for evaluation in the parent frame.
- Contexts.Context.SetVariables: every default value and call-site value is fixed before the first binding. In the source, each value is evaluated between `set_variable` calls, while the new frame may already be on the shared stack. A config name used in a later default or argument can then read a config value this frame has just written. The lemmas about defaults and call-site overrides hold for the values as given.
- The `optargs` and `usermodule` arguments of `setVariables` only feed `resolveArguments`, so they are left out with it.
- Contexts.Context.EvaluateFunction, Contexts.Context.InstantiateModule: subclasses that handle calls themselves are not part of this model. A table from frame to the names that frame handles stands for their overrides, and the handled result is taken from that table.
- The global `LOG` sink is left out. Each diagnostic is returned in a `warnings` sequence carrying its name, location and document path, and the message text is not modelled.
- `setDocumentPath` and the other inline accessors of `context.h` are not part of this model. The document path is assumed to be one object shared by the whole tree, as the constructor sets it up; whether setting it changes that shared object or gives one frame a new one is not modelled.
- Contexts.Context.Pop requires a non-empty stack. In the source, popping an empty vector is undefined behaviour.
- Values are abstract tags. Numbers are `real`, so double rounding is not modelled.
- The two overloads of `set_variable` and `set_constant` that take a `Value` rather than a `ValuePtr` only wrap their argument, so they are the same operation here.
- The other engine files (the CGAL worker thread, text rendering, input mapping, platform utilities, the GUI console, importers and headers) are not part of this model.
