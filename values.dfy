/** Script-level values, diagnostics and the name classification shared by every scope frame. */
module Values {

  datatype Option<+T> = None | Some(value: T)

  /** A script value. Only its tag matters to the scope engine; the payloads are carried, never inspected,
      except by the typed lookups with a default (number and string). */
  datatype Value =
    | Undefined
    | Boolean(b: bool)
    | Number(n: real)
    | Text(s: string)
    | Vector(items: seq<Value>)
    | Range(begin: real, step: real, end: real)

  /** An instantiated node of the expression tree; opaque to the scope engine. */
  datatype Node = Node(id: nat)

  /** A default-value expression of a parameter; opaque to the scope engine. */
  datatype Expr = Expr(id: nat)

  /** A formal parameter: its name and, optionally, its default expression. */
  datatype Assignment = Assignment(name: string, default: Option<Expr>)

  /** Where in the script a diagnostic points. */
  datatype Location = NoLocation | At(line: nat, column: nat)

  /** The diagnostics the scope engine emits. */
  datatype Warning =
    | UnknownVariable(name: string, loc: Location, documentPath: string)
    | ConstantRedefinition(name: string)
    | UnknownFunction(name: string, loc: Location, documentPath: string)
    | UnknownModule(name: string, loc: Location, documentPath: string)

  /** The value bound to `k` in `m`, if any. */
  function Get(m: map<string, Value>, k: string): Option<Value> {
    if k in m then Some(m[k]) else None
  }

  /** The value found, or undefined when nothing was found. */
  function ValueOr(found: Option<Value>): Value {
    match found
    case Some(v) => v
    case None => Undefined
  }

  /** The character at position `i`, or NUL past the end (std::string::operator[] at size()). */
  function CharAt(s: string, i: nat): char {
    if i < |s| then s[i] else '\0'
  }

  /** A config (dynamic-scope) variable is one whose name starts with '$', except "$children",
      which is an ordinary lexical name despite its sigil. */
  predicate IsConfigVariable(name: string)
    ensures IsConfigVariable(name) <==> "$" <= name && name != "$children"
  {
    CharAt(name, 0) == '$' && name != "$children"
  }
}
