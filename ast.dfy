/**
 * The part of a Ruby syntax tree the call-graph walker looks at.
 * An external parser builds the tree; the walker only reads it.
 */
module Ast {
  import opened Wrappers

  /**
   * `Def` is a `def name ... end` node (its parameter list and body are its
   * children), `Send` a method call with its optional receiver, its method
   * name and its arguments, and `Other` every other node kind (including
   * `defs`, the `def self.name` form), of which only the children matter.
   */
  datatype Node =
    | Def(name: string, kids: seq<Node>)
    | Send(recv: Option<Node>, name: string, args: seq<Node>)
    | Other(kids: seq<Node>)

  /** Whether a `Def` node occurs anywhere in the tree. */
  predicate HasDef(n: Node)
    decreases n
  {
    match n
    case Def(_, _) => true
    case Send(recv, _, args) => (recv.Some? && HasDef(recv.value)) || HasDefAll(args)
    case Other(kids) => HasDefAll(kids)
  }

  predicate HasDefAll(ns: seq<Node>)
    decreases ns
  {
    ns != [] && (HasDef(ns[0]) || HasDefAll(ns[1..]))
  }

  /** The names of all `Def` nodes of the tree. */
  function DefNames(n: Node): set<string>
    decreases n
  {
    match n
    case Def(name, kids) => {name} + DefNamesAll(kids)
    case Send(recv, _, args) =>
      (if recv.Some? then DefNames(recv.value) else {}) + DefNamesAll(args)
    case Other(kids) => DefNamesAll(kids)
  }

  function DefNamesAll(ns: seq<Node>): set<string>
    decreases ns
  {
    if ns == [] then {} else DefNames(ns[0]) + DefNamesAll(ns[1..])
  }

  /**
   * The names of the receiver-less calls of the tree, in pre-order: a call's
   * own name comes before the names of the calls in its receiver and in its
   * arguments.
   */
  function Targets(n: Node): seq<string>
    decreases n
  {
    match n
    case Def(_, kids) => TargetsAll(kids)
    case Send(recv, name, args) =>
      (if recv.None? then [name] else [])
      + (if recv.Some? then Targets(recv.value) else [])
      + TargetsAll(args)
    case Other(kids) => TargetsAll(kids)
  }

  function TargetsAll(ns: seq<Node>): seq<string>
    decreases ns
  {
    if ns == [] then [] else Targets(ns[0]) + TargetsAll(ns[1..])
  }
}
