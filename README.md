# callgraph.rb in Dafny

`callgraph.rb` reads one Ruby source file and reports which methods call
which. A `Processor` walks the syntax tree depth first:

- `on_def` sets `@method` to the method's name and adds the name to
  `@methods`, walks the body, then clears `@method` to `nil`;
- `on_send` records the call's method name under `@method` in `@calls`
  when a `def` is active and the call has no receiver, then walks the
  receiver and the arguments.

`@calls` is a `Hash` whose default block creates an empty array, so a key
appears the first time a call is recorded under it. `main` then prints one of
three name lists (`--defined`, `--called`, `--remote`). With `--dot`, a
`DotRenderer` writes the table as a Graphviz `digraph`: one filled node line
per key, then one edge line per recorded target, with the targets in
`BLACKLIST` skipped.

The model has these modules:

- `Ast`: the tree, reduced to the three node kinds the walker tells apart:
  `Def`, `Send` and every other node (`Other`), whose children are walked
  in order. A `def self.m` (`defs`) node is an `Other`, because
  `on_def` is not called for it. A safe-navigation call (`&.`, `csend`) is
  also an `Other`: the base class aliases `on_csend` to its own `on_send`,
  and such a call always has a receiver, so it is never recorded.
- `CallTable`: `@calls` as its keys in insertion order plus a map, with the
  default block's behaviour.
- `Attribution`: a pure definition of what the walk records and of the
  value `@method` has after each node.
- `Walker`: the `Processor` class with its fields, proved against
  `Attribution`.
- `Dot`: the `DotRenderer` class, whose `Render` keeps the source's nested
  loops and is proved against the `Document` function, plus the shape of
  the graph body.
- `DotFormat`: reading the graph lines back, which shows that the lines
  determine the statements they stand for.
- `SeqUtil`: Ruby's `Array#uniq`, `Array#-` and `flatten`.
- `Report`: `main` from the parsed tree on.

The help texts of `--defined` and `--remote` (callgraph.rb:69, 77) speak of
defined methods, but the code creates a key of `@calls` only on a method's
first recorded call (callgraph.rb:10, 23). The model follows the code: a
method with no receiver-less call is in `@methods` but not in `@calls`, so
`--defined` does not list it and `--remote` can list it. The finding below
records the `--remote` case.

## Model

| member | source | states |
|---|---|---|
| Walker.Processor.constructor | callgraph.rb:8-11 | a new processor has no active method, no defined methods and an empty call table |
| Walker.Processor.Record | callgraph.rb:21-24 | `@calls[@method] << target` appends the target to the active method's list, adds the key last when it is new, and leaves every other key, `@method` and `@methods` unchanged; the table stays well formed |
| Walker.Processor.Process | callgraph.rb:6-27 | walking a node leaves `@method`, `@methods` and `@calls` exactly as `Attribute` and `DefNames` say, and keeps the processor's invariant (well-formed table, every key and the active method are defined names) |
| Walker.Processor.OnDef | callgraph.rb:13-18 | a `def` adds its name to `@methods`, attributes the calls in its body to it, and leaves `@method` cleared to `nil`, whatever it was before |
| Walker.Processor.OnSend | callgraph.rb:20-26 | a call records itself first (only when a method is active and there is no receiver), then the calls of its receiver, then those of its arguments |
| Walker.Processor.ProcessAll | callgraph.rb:16 | walking children in order carries `@method` from each child to the next and appends their records in order |
| CallTable.Lookup | callgraph.rb:10 | definition: `@calls[k]` read through the default block, a missing key reading as an empty list (the source never reads a missing key except to append to it) |
| CallTable.Append | callgraph.rb:10 | the default block and `<<`: the key's list gets the value at its end, a new key goes last, other keys are unchanged, and a well-formed table stays well formed |
| CallTable.AppendAllKeys | callgraph.rb:10 | after a series of appends the keys are the old keys followed by each new caller at its first record, each listed once |
| CallTable.AppendAllLookup | callgraph.rb:23 | after a series of appends each key's list is its old list followed by exactly the callees recorded for it, in order, repeats kept |
| CallTable.AppendAllValid | callgraph.rb:10 | appends keep the table well formed: keys listed once, keys equal to the hash's domain, no empty list |
| CallTable.FromRecords | callgraph.rb:10-23 | a table built from nothing has as keys the callers in order of first record, and under each key exactly that caller's callees |
| Attribution.Attribute | callgraph.rb:13-26 | definition of the walk: the records a node adds, in order, and `@method` afterwards, which is the value it had or `nil` |
| Attribution.AttributeAll | callgraph.rb:16 | definition of walking children in order, `@method` carried from each to the next; `@method` afterwards is the value it had or `nil` |
| Attribution.CalleesAreTargets | callgraph.rb:20-26 | at any depth, the recorded callees are receiver-less call names of the node, in pre-order: the walk drops calls but never adds or reorders them |
| Attribution.CalleesAreTargetsAll | callgraph.rb:16-26 | the same for a list of nodes walked in order |
| Attribution.RecordedCalleesAreTargets | callgraph.rb:21-23 | a call with a receiver is never recorded: every recorded callee names a receiver-less call of the node |
| Attribution.AfterWalk | callgraph.rb:13-18 | `@method` is `nil` after a node containing a `def` and unchanged after any other node |
| Attribution.CallersDefined | callgraph.rb:13-24 | every recorded caller is the method active when the walk began or the name of a `def` inside the node |
| Attribution.WalkWithoutDef | callgraph.rb:20-26 | in a tree without a `def`, the walk records every receiver-less call, in pre-order, under the active method, or nothing when no method is active |
| Attribution.FlatDef | callgraph.rb:13-18 | a `def` with no nested `def` gets exactly its body's receiver-less calls, in pre-order, with repeats |
| Attribution.AttributeAllConcat | callgraph.rb:16 | walking two lists of nodes one after the other equals walking their concatenation |
| Attribution.NestedDefLosesContext | callgraph.rb:14-17 | after a nested `def` the enclosing method's later calls are recorded under no name, because `@method` is one variable, not a stack |
| Attribution.NestedDefExample | callgraph.rb:14-17 | `def outer; def inner; y; end; x; end` records only `inner -> y` |
| Attribution.PreOrderExample | callgraph.rb:20-26 | `def m; foo(bar()); end` records `m -> foo` before `m -> bar` |
| SeqUtil.Uniq | callgraph.rb:113 | `uniq` has no repeats and has exactly the elements of its input |
| SeqUtil.UniqSubsequence | callgraph.rb:113 | `uniq` keeps the input's order |
| SeqUtil.UniqFirstOccurrence | callgraph.rb:113 | `uniq` orders its elements by their first occurrence in the input |
| SeqUtil.UniqOfNoDup | callgraph.rb:113 | `uniq` of a list with no repeats is that list |
| SeqUtil.MinusMembers | callgraph.rb:119 | an element is in `a - b` exactly when it is in `a` and not in `b` |
| SeqUtil.MinusSubsequence | callgraph.rb:119 | `a - b` keeps the order of `a` |
| SeqUtil.MinusNoDup | callgraph.rb:119 | `a - b` has no repeats when `a` has none |
| SeqUtil.MinusProperties | callgraph.rb:119 | the three properties of `a - b` together |
| SeqUtil.ConcatMembership | callgraph.rb:113 | `flatten` holds exactly the elements of the inner lists |
| Report.Defined | callgraph.rb:109 | definition: `calls.keys`, whose properties are in `Report.BuildSpec` |
| Report.Called | callgraph.rb:113 | definition: `calls.values.flatten.uniq`, whose properties are in `Report.CalledMembers` and `Report.CalledOrder` |
| Report.Remote | callgraph.rb:117-119 | definition of the list as written: `called - calls.keys`, whose properties are in `Report.RemoteSpec` |
| Report.Printed | callgraph.rb:108-122 | definition of the `if`/`elsif` chain: the list of the first of `--defined`, `--called`, `--remote` that is set, or nothing |
| Report.Build | callgraph.rb:105-106 | definition: the table a fresh processor builds from the tree, as `Walker.Processor.Process` proves; its properties are in `Report.BuildSpec` |
| Report.CalledMembers | callgraph.rb:113 | the called list names each recorded target once, and nothing else |
| Report.CalledOrder | callgraph.rb:113 | the called list is in order of first occurrence in the values read in key order |
| Report.RemoteSpec | callgraph.rb:116-121 | as written, the remote list holds the called names that are not keys, in called order, without repeats |
| Report.BuildSpec | callgraph.rb:105-106 | the table built from a tree is well formed; its keys are the callers in order of first call, each a `def` name of the tree; each list is that caller's recorded targets |
| Report.Run | callgraph.rb:97-128 | `main` prints the list for the first of `--defined`, `--called`, `--remote` that is set (none otherwise), and writes the graph document for the walked table exactly when `--dot` is given |
| Report.NoDefinitions | callgraph.rb:105-128 | a file with no `def` gives an empty table, prints nothing and writes a graph with only the header and the footer |
| Report.EmptyTableOutputs | callgraph.rb:108-128 | the empty table prints no list and renders only the framing lines |
| Report.TwoMethodsRecords | callgraph.rb:13-24 | `def a; b; end; def b; end` records only `a -> b`, and `b` is a defined name |
| Report.TwoMethodsTable | callgraph.rb:105-118 | for that file the keys are `[a]` and the values `[[b]]` |
| Report.RemoteListsDefinedMethod | callgraph.rb:116-121 | as written, `--remote` on that file prints `b` although `b` is defined, and `--defined` prints only `a` |
| Report.RemoteCorrectedSpec | callgraph.rb:116-121 | subtracting every defined name, the remote list holds exactly the called names that no `def` defines, without repeats, in called order |
| Report.RemoteCorrectedExample | callgraph.rb:116-121 | with that correction the two-method file has an empty remote list |
| Dot.Line | callgraph.rb:45-49 | definition of the node and edge line formats; `DotFormat.ParseLineOfLine` and `DotFormat.LineOfParseLine` prove they can be read back |
| Dot.Kept | callgraph.rb:47-51 | definition of the targets that become edges; its properties are in `Dot.KeptProperties` |
| Dot.Document | callgraph.rb:40-54 | definition of the whole document: header, each key's block in key order, footer |
| Dot.DotRenderer.constructor | callgraph.rb:35-38 | the renderer keeps the processor and the output it is given |
| Dot.DotRenderer.Render | callgraph.rb:40-54 | `render` appends exactly the document of the processor's table to the output: the header, each key's block in key order, the footer; the processor is left unchanged |
| Dot.KeptMembers | callgraph.rb:30-33 | a target becomes an edge exactly when it is not blacklisted |
| Dot.KeptSubsequence | callgraph.rb:46-51 | the kept targets are in recorded order |
| Dot.KeptCounts | callgraph.rb:46-51 | a target that is not blacklisted becomes an edge as many times as it was recorded |
| Dot.KeptProperties | callgraph.rb:30-51 | the three properties of the kept targets together |
| Dot.BlockContents | callgraph.rb:45-51 | one key's block is its node line followed by its kept targets as edges |
| Dot.StatementsNodes | callgraph.rb:44-45 | the graph body has one node line per key, in key order |
| Dot.StatementsGrouped | callgraph.rb:44-51 | every edge comes right after its source's node line or after another edge from the same source |
| Dot.StatementsEdges | callgraph.rb:44-51 | the edges from a key are exactly its non-blacklisted targets in order, repeats kept; a name that is not a key has no edges |
| Dot.StatementsShape | callgraph.rb:44-52 | the three body properties together |
| Dot.StatementsSound | callgraph.rb:44-51 | every node line names a key, and every edge goes from a key to one of its recorded targets that is not blacklisted |
| DotFormat.ParseLineOfLine | callgraph.rb:45-49 | a node or edge line whose names hold no double quote reads back as its statement |
| DotFormat.LineOfParseLine | callgraph.rb:45-49 | a line that reads back as a statement is exactly that statement's line |
| DotFormat.LineInjective | callgraph.rb:45-58 | two statements without double quotes in their names that have the same line are the same statement |
| DotFormat.ParseBodyOfLines | callgraph.rb:44-52 | the body lines read back as the statements they were written from |
| DotFormat.DocumentRoundTrip | callgraph.rb:40-54 | the whole document of a table without double quotes in its names reads back as exactly its graph body |
| DotFormat.FramingIsNoEdge | callgraph.rb:41-53 | neither header line nor the footer is an edge line |
| DotFormat.NoBlacklistedEdgeLine | callgraph.rb:30-51 | for names without a double quote, no line of the document is an edge to a blacklisted name |
| DotFormat.UnquotableNamesCollide | callgraph.rb:56-58 | because `quote` escapes nothing, names with double quotes give two different edges with the same line |

## Left out

- `parse_args` (callgraph.rb:61-94): option parsing, the usage text and `exit 1` on a wrong argument count. `Options` stands for the parsed result.
- Reading and parsing the file (callgraph.rb:101-103): the parser is outside the model, which takes the tree as given. An empty file parses to `nil`, which walks like an `Other` node with no children.
- Output: `puts`, `File.new` and `f.close` (callgraph.rb:109-127) become the printed lines and the graph document as sequences of lines.
- The `$0 == __FILE__` guard (callgraph.rb:131-133).
- Ruby symbols and `to_s`: names are strings from the start.
- DotFormat.DocumentRoundTrip: holds only for names without a double quote, which is true of every Ruby method name; DotFormat.UnquotableNamesCollide shows what fails otherwise.

## Findings

| source | as written | input that shows it | evidently intended | confidence | as-written member | corrected member |
|---|---|---|---|---|---|---|
| callgraph.rb:116-121 | `--remote` subtracts `p.calls.keys`, which lists only the methods that made a receiver-less call | `def a; b; end; def b; end`: `--remote` prints `b` although `b` is defined in the file | print the called names that no `def` in the file defines, that is subtract `p.methods` | not executed | Report.RemoteListsDefinedMethod | Report.RemoteCorrectedSpec |
