/** The JSON builder: a small stack machine that assembles a node tree from a chain of
    calls. The open containers are kept as paths from the root to each of them, in the
    order they were opened; the C++ keeps pointers to the same nodes. Every open container
    lies on the path to the innermost one, and only the innermost one grows, so none of
    those pointers is ever invalidated. */
module JsonBuilder {
  import opened Wrappers
  import opened Json

  /** One step down a node tree: an array element or a dictionary entry. */
  datatype Step = Item(index: nat) | Member(name: string)

  /** The node a path leads to, if it leads anywhere. */
  function Get(node: Node, path: seq<Step>): Option<Node>
    decreases |path|
  {
    if |path| == 0 then Some(node)
    else match path[0]
      case Item(i) =>
        if node.Array? && i < |node.items| then Get(node.items[i], path[1..]) else None
      case Member(k) =>
        if node.Dict? && k in node.entries then Get(node.entries[k], path[1..]) else None
  }

  /** The tree with the node at `path` replaced by `sub`. */
  function Put(node: Node, path: seq<Step>, sub: Node): Node
    requires Get(node, path).Some?
    decreases |path|
  {
    if |path| == 0 then sub
    else match path[0]
      case Item(i) => Array(node.items[i := Put(node.items[i], path[1..], sub)])
      case Member(k) => Dict(node.entries[k := Put(node.entries[k], path[1..], sub)])
  }

  predicate IsContainer(node: Node) {
    node.Array? || node.Dict?
  }

  /** Replacing the node at a path puts `sub` there, and leaves a node of the same kind
      at every shorter prefix of the path. */
  lemma {:induction false} PutGet(node: Node, path: seq<Step>, sub: Node, n: nat)
    requires Get(node, path).Some? && n <= |path|
    ensures Get(Put(node, path, sub), path) == Some(sub)
    ensures n < |path| ==> (Get(node, path[..n]).Some? && Get(Put(node, path, sub), path[..n]).Some? &&
      Get(Put(node, path, sub), path[..n]).value.Array? == Get(node, path[..n]).value.Array? &&
      Get(Put(node, path, sub), path[..n]).value.Dict? == Get(node, path[..n]).value.Dict?)
    decreases |path|
  {
    if |path| > 0 {
      var m := if n > 0 then n - 1 else 0;
      PutGet(match path[0] case Item(i) => node.items[i] case Member(k) => node.entries[k], path[1..], sub, m);
      if n > 0 {
        assert path[..n][0] == path[0] && path[..n][1..] == path[1..][..m];
      }
    }
  }

  /** The builder's state: the root, the paths of the open containers (innermost last)
      and the key waiting for its value. */
  datatype BuilderState = BuilderState(root: Node, stack: seq<seq<Step>>, key: Option<string>)
  {
    /** Each open container is one step inside the one opened before it, the first is
        the root, and each path leads to a container. */
    ghost predicate Valid() {
      (|stack| > 0 ==> |stack[|stack| - 1]| == |stack| - 1) &&
      (forall i :: 0 <= i < |stack| ==> stack[i] == stack[|stack| - 1][..i]) &&
      (forall i :: 0 <= i < |stack| ==> Get(root, stack[i]).Some? && IsContainer(Get(root, stack[i]).value))
    }

    /** The innermost open container, if there is one. */
    function Current(): Option<Node> {
      if |stack| == 0 then None else Get(root, stack[|stack| - 1])
    }

    /** AddNode: with nothing open, the node becomes the root, unless a root other than
        null is already there; in an open array it is appended; in an open dictionary it
        is stored under the pending key, unless the key is already present
        (std::map::emplace), and the key is cleared. The node now at that place is pushed
        when it is a container. */
    function AddNode(node: Node): Result<BuilderState, string> {
      if |stack| == 0 then
        if root.Null? then Ok(BuilderState(node, if IsContainer(node) then [[]] else [], key))
        else Err("Attempt to add more than one root node")
      else
        var top := stack[|stack| - 1];
        match Get(root, top)
        case Some(Array(items)) =>
          var path := top + [Item(|items|)];
          Ok(BuilderState(Put(root, top, Array(items + [node])),
                          stack + (if IsContainer(node) then [path] else []), key))
        case Some(Dict(entries)) =>
          if key.None? then Err("Attempt to add value to dict without key")
          else
            var k := key.value;
            var stored := if k in entries then entries else entries[k := node];
            var path := top + [Member(k)];
            Ok(BuilderState(Put(root, top, Dict(stored)),
                            stack + (if IsContainer(stored[k]) then [path] else []), None))
        case _ => Err("Invalid node type")
    }

    function StartDict(): Result<BuilderState, string> { AddNode(Dict(map[])) }

    function StartArray(): Result<BuilderState, string> { AddNode(Array([])) }

    function Value(value: Node): Result<BuilderState, string> { AddNode(value) }

    function EndDict(): Result<BuilderState, string> {
      if Current().Some? && Current().value.Dict? then Ok(this.(stack := stack[..|stack| - 1]))
      else Err("EndDict called without matching StartDict")
    }

    function EndArray(): Result<BuilderState, string> {
      if Current().Some? && Current().value.Array? then Ok(this.(stack := stack[..|stack| - 1]))
      else Err("EndArray called without matching StartArray")
    }

    function SetKey(k: string): Result<BuilderState, string> {
      if Current().Some? && Current().value.Dict? then Ok(this.(key := Some(k)))
      else Err("Key method called in wrong context")
    }

    /** Build after CheckReady: the root, whether or not every container was closed. */
    function Build(): Result<Node, string> {
      if (|stack| == 0 && root.Null?) || key.Some? then Err("JSON is not complete")
      else Ok(root)
    }
  }

  const EmptyBuilder := BuilderState(Null, [], None)

  // ---------------------------------------------------------------------------
  // What each call does

  /** With nothing open, the first node added becomes the root, and adding another fails
      unless the root is still null; a container added as the root is opened. */
  lemma AddRootSpec(st: BuilderState, node: Node)
    requires |st.stack| == 0
    ensures st.AddNode(node).Ok? <==> st.root.Null?
    ensures st.AddNode(node).Ok? ==>
      st.AddNode(node).value.root == node && st.AddNode(node).value.key == st.key &&
      (IsContainer(node) <==> st.AddNode(node).value.stack == [[]])
  {
  }

  /** In an open array the node is appended at the end, and opened when it is a
      container. */
  lemma AddToArraySpec(st: BuilderState, node: Node)
    requires st.Valid() && st.Current().Some? && st.Current().value.Array?
    ensures st.AddNode(node).Ok?
    ensures var top := st.stack[|st.stack| - 1];
      var next := st.AddNode(node).value;
      Get(next.root, top) == Some(Array(st.Current().value.items + [node])) &&
      next.key == st.key &&
      next.stack == st.stack + (if IsContainer(node) then [top + [Item(|st.Current().value.items|)]] else [])
  {
    PutGet(st.root, st.stack[|st.stack| - 1], Array(st.Current().value.items + [node]), 0);
  }

  /** In an open dictionary the node needs a pending key; it is stored under that key
      unless the key is already present, where the old value stays; the key is cleared
      either way. */
  lemma AddToDictSpec(st: BuilderState, node: Node)
    requires st.Valid() && st.Current().Some? && st.Current().value.Dict?
    ensures st.AddNode(node).Ok? <==> st.key.Some?
    ensures st.AddNode(node).Ok? ==>
      var top := st.stack[|st.stack| - 1];
      var entries := st.Current().value.entries;
      var next := st.AddNode(node).value;
      var k := st.key.value;
      next.key.None? &&
      Get(next.root, top) == Some(Dict(if k in entries then entries else entries[k := node])) &&
      (k in entries ==> Get(next.root, top).value.entries[k] == entries[k])
  {
    if st.key.Some? {
      var entries := st.Current().value.entries;
      var k := st.key.value;
      PutGet(st.root, st.stack[|st.stack| - 1], Dict(if k in entries then entries else entries[k := node]), 0);
    }
  }

  /** Only containers are ever opened: each successful add pushes at most one path, and
      only one that leads to a container. */
  lemma OnlyContainersOpened(st: BuilderState, node: Node)
    requires st.Valid() && st.AddNode(node).Ok?
    ensures var next := st.AddNode(node).value;
      next.Valid() &&
      (|next.stack| == |st.stack| || |next.stack| == |st.stack| + 1) &&
      next.stack[..|st.stack|] == st.stack &&
      (|next.stack| == |st.stack| + 1 ==> IsContainer(next.Current().value))
  {
    AddNodeValid(st, node);
  }

  /** EndDict and EndArray close exactly the innermost container, and only when it has
      the matching kind; Key needs an open dictionary. */
  lemma EndSpec(st: BuilderState, k: string)
    ensures st.EndDict().Ok? <==> |st.stack| > 0 && st.Current().Some? && st.Current().value.Dict?
    ensures st.EndArray().Ok? <==> |st.stack| > 0 && st.Current().Some? && st.Current().value.Array?
    ensures st.EndDict().Ok? ==> (st.EndDict().value.stack == st.stack[..|st.stack| - 1] &&
      st.EndDict().value.root == st.root && st.EndDict().value.key == st.key)
    ensures st.EndArray().Ok? ==> (st.EndArray().value.stack == st.stack[..|st.stack| - 1] &&
      st.EndArray().value.root == st.root && st.EndArray().value.key == st.key)
    ensures st.SetKey(k).Ok? <==> st.Current().Some? && st.Current().value.Dict?
    ensures st.SetKey(k).Ok? ==> st.SetKey(k).value == st.(key := Some(k))
  {
  }

  /** Build fails exactly when nothing but null was ever made the root, or a key waits
      for its value; containers left open do not make it fail. */
  lemma BuildSpec(st: BuilderState)
    ensures st.Build().Err? <==> (|st.stack| == 0 && st.root.Null?) || st.key.Some?
    ensures st.Build().Ok? ==> st.Build().value == st.root
    ensures EmptyBuilder.Build().Err?
    ensures EmptyBuilder.Value(Null).Ok? && EmptyBuilder.Value(Null).value.Build().Err?
  {
  }

  // ---------------------------------------------------------------------------
  // The stack of open containers stays a chain of containers

  lemma AddNodeValid(st: BuilderState, node: Node)
    requires st.Valid() && st.AddNode(node).Ok?
    ensures st.AddNode(node).value.Valid()
    ensures |st.AddNode(node).value.stack| >= |st.stack| && st.AddNode(node).value.stack[..|st.stack|] == st.stack
  {
    var next := st.AddNode(node).value;
    if |st.stack| > 0 {
      OpenStayOpen(st, node);
      if |next.stack| > |st.stack| {
        NewlyOpened(st, node);
      }
    }
    assert next.stack[..|st.stack|] == st.stack;
  }

  /** The node written where an add lands, below the innermost open container. */
  function Written(st: BuilderState, node: Node): Node
    requires st.Current().Some? && IsContainer(st.Current().value)
    requires st.Current().value.Dict? ==> st.key.Some?
  {
    var cur := st.Current().value;
    if cur.Array? then Array(cur.items + [node])
    else Dict(if st.key.value in cur.entries then cur.entries else cur.entries[st.key.value := node])
  }

  /** An add leaves every container that was open still open, with the same kind. */
  lemma OpenStayOpen(st: BuilderState, node: Node)
    requires st.Valid() && st.AddNode(node).Ok? && |st.stack| > 0
    ensures forall i :: 0 <= i < |st.stack| ==>
      Get(st.AddNode(node).value.root, st.stack[i]).Some? && IsContainer(Get(st.AddNode(node).value.root, st.stack[i]).value)
  {
    var next := st.AddNode(node).value;
    var top := st.stack[|st.stack| - 1];
    var sub := Written(st, node);
    assert next.root == Put(st.root, top, sub);
    PutGet(st.root, top, sub, 0);
    forall i | 0 <= i < |st.stack|
      ensures Get(next.root, st.stack[i]).Some? && IsContainer(Get(next.root, st.stack[i]).value)
    {
      PutGet(st.root, top, sub, i);
      if i < |top| { assert st.stack[i] == top[..i]; } else { assert st.stack[i] == top; }
    }
  }

  /** A container an add opens is one step inside the innermost open one. */
  lemma NewlyOpened(st: BuilderState, node: Node)
    requires st.Valid() && st.AddNode(node).Ok? && |st.stack| > 0
    requires |st.AddNode(node).value.stack| > |st.stack|
    ensures var next := st.AddNode(node).value;
      |next.stack| == |st.stack| + 1 && next.stack[..|st.stack|] == st.stack &&
      |next.stack[|st.stack|]| == |st.stack| &&
      next.stack[|st.stack|][..|st.stack| - 1] == st.stack[|st.stack| - 1] &&
      Get(next.root, next.stack[|st.stack|]).Some? && IsContainer(Get(next.root, next.stack[|st.stack|]).value)
  {
    var next := st.AddNode(node).value;
    var top := st.stack[|st.stack| - 1];
    var cur := st.Current().value;
    var sub := Written(st, node);
    assert next.root == Put(st.root, top, sub);
    PutGet(st.root, top, sub, 0);
    var step := if cur.Array? then Item(|cur.items|) else Member(st.key.value);
    assert next.stack[|st.stack|] == top + [step];
    PathStep(next.root, top, step);
  }

  /** Going one step further from a path reaches the child at that step. */
  lemma {:induction false} PathStep(node: Node, path: seq<Step>, step: Step)
    requires Get(node, path).Some?
    ensures Get(node, path + [step]) ==
      match step
      case Item(i) =>
        if Get(node, path).value.Array? && i < |Get(node, path).value.items| then Some(Get(node, path).value.items[i]) else None
      case Member(k) =>
        if Get(node, path).value.Dict? && k in Get(node, path).value.entries then Some(Get(node, path).value.entries[k]) else None
    decreases |path|
  {
    if |path| == 0 {
      assert ([] + [step])[1..] == [];
    } else {
      assert (path + [step])[0] == path[0] && (path + [step])[1..] == path[1..] + [step];
      match path[0]
      case Item(i) =>
        if node.Array? && i < |node.items| { PathStep(node.items[i], path[1..], step); }
      case Member(k) =>
        if node.Dict? && k in node.entries { PathStep(node.entries[k], path[1..], step); }
    }
  }

  lemma EndValid(st: BuilderState)
    requires st.Valid()
    ensures st.EndDict().Ok? ==> st.EndDict().value.Valid()
    ensures st.EndArray().Ok? ==> st.EndArray().value.Valid()
  {
    if |st.stack| > 1 {
      var top := st.stack[|st.stack| - 1];
      var below := st.stack[|st.stack| - 2];
      forall i | 0 <= i < |st.stack| - 1 ensures st.stack[i] == below[..i] {
        assert st.stack[i] == top[..i] && below == top[..|st.stack| - 2];
      }
    }
  }

  /** With a valid stack, the innermost open container is always an array or a
      dictionary, so AddNode never fails with "Invalid node type". */
  lemma NeverInvalidNodeType(st: BuilderState, node: Node)
    requires st.Valid()
    ensures st.AddNode(node) != Err("Invalid node type")
  {
  }

  // ---------------------------------------------------------------------------
  // The item contexts

  /** The type a call returns: Builder&, DictItemContext, ArrayItemContext or
      KeyItemContext. */
  datatype Context = BuilderContext | DictItemContext | ArrayItemContext | KeyItemContext

  datatype Call =
    | StartDictCall
    | StartArrayCall
    | EndDictCall
    | EndArrayCall
    | KeyCall(k: string)
    | ValueCall(value: Node)

  /** The calls each context offers, and the context each of them returns. */
  function Next(ctx: Context, call: Call): Option<Context> {
    match ctx
    case BuilderContext =>
      Some(match call
        case StartDictCall => DictItemContext
        case StartArrayCall => ArrayItemContext
        case KeyCall(_) => KeyItemContext
        case _ => BuilderContext)
    case DictItemContext =>
      (match call
       case KeyCall(_) => Some(KeyItemContext)
       case EndDictCall => Some(BuilderContext)
       case _ => None)
    case ArrayItemContext =>
      (match call
       case ValueCall(_) => Some(ArrayItemContext)
       case StartDictCall => Some(DictItemContext)
       case StartArrayCall => Some(ArrayItemContext)
       case EndArrayCall => Some(BuilderContext)
       case _ => None)
    case KeyItemContext =>
      (match call
       case ValueCall(_) => Some(DictItemContext)
       case StartDictCall => Some(DictItemContext)
       case StartArrayCall => Some(ArrayItemContext)
       case _ => None)
  }

  function Apply(st: BuilderState, call: Call): Result<BuilderState, string> {
    match call
    case StartDictCall => st.StartDict()
    case StartArrayCall => st.StartArray()
    case EndDictCall => st.EndDict()
    case EndArrayCall => st.EndArray()
    case KeyCall(k) => st.SetKey(k)
    case ValueCall(v) => st.Value(v)
  }

  /** What an item context promises about the builder behind it: a dictionary context
      sits on an open dictionary with no pending key, a key context on an open dictionary
      whose pending key is new to it, an array context on an open array with no pending
      key. */
  ghost predicate Matches(ctx: Context, st: BuilderState) {
    st.Valid() &&
    match ctx
    case BuilderContext => true
    case DictItemContext => st.Current().Some? && st.Current().value.Dict? && st.key.None?
    case ArrayItemContext => st.Current().Some? && st.Current().value.Array? && st.key.None?
    case KeyItemContext =>
      st.Current().Some? && st.Current().value.Dict? && st.key.Some? && st.key.value !in st.Current().value.entries
  }

  /** A call an item context offers does not fail, and the context it returns again
      matches the builder, as long as each value is a scalar and each key is new to its
      dictionary. (A container passed to Value is opened, and a repeated key leaves the
      old value in place, which the context types do not track.) */
  lemma ContextsAreSafe(ctx: Context, st: BuilderState, call: Call)
    requires ctx != BuilderContext && Matches(ctx, st) && Next(ctx, call).Some?
    requires call.ValueCall? ==> !IsContainer(call.value)
    requires call.KeyCall? ==> call.k !in st.Current().value.entries
    ensures Apply(st, call).Ok?
    ensures Matches(Next(ctx, call).value, Apply(st, call).value)
  {
    if call.ValueCall? || call.StartDictCall? || call.StartArrayCall? {
      var node := match call case ValueCall(v) => v case StartDictCall => Dict(map[]) case _ => Array([]);
      assert Apply(st, call) == st.AddNode(node);
      AddIsSafe(ctx, st, node);
    } else {
      EndValid(st);
    }
  }

  /** Adding a node in an array context or a key context succeeds; the builder then sits
      on the node when it is a container, and otherwise on the same container with no
      pending key. */
  lemma AddIsSafe(ctx: Context, st: BuilderState, node: Node)
    requires (ctx == ArrayItemContext || ctx == KeyItemContext) && Matches(ctx, st)
    ensures st.AddNode(node).Ok?
    ensures Matches(if node.Dict? then DictItemContext
                    else if node.Array? || ctx == ArrayItemContext then ArrayItemContext
                    else DictItemContext, st.AddNode(node).value)
  {
    if ctx == ArrayItemContext {
      AddToArraySpec(st, node);
    } else {
      AddToDictSpec(st, node);
    }
    AddNodeValid(st, node);
    OpenedIsNew(st, node);
  }

  /** A node added where nothing was stored is what the path pushed for it leads to. */
  lemma OpenedIsNew(st: BuilderState, node: Node)
    requires st.Valid() && st.Current().Some?
    requires st.Current().value.Array? || (st.Current().value.Dict? && st.key.Some? && st.key.value !in st.Current().value.entries)
    ensures st.AddNode(node).Ok?
    ensures IsContainer(node) ==> st.AddNode(node).value.Current() == Some(node)
    ensures !IsContainer(node) ==> st.AddNode(node).value.Current() == Some(
      if st.Current().value.Array? then Array(st.Current().value.items + [node])
      else Dict(st.Current().value.entries[st.key.value := node]))
  {
    var top := st.stack[|st.stack| - 1];
    var cur := st.Current().value;
    var sub := if cur.Array? then Array(cur.items + [node]) else Dict(cur.entries[st.key.value := node]);
    PutGet(st.root, top, sub, 0);
    if IsContainer(node) {
      var step := if cur.Array? then Item(|cur.items|) else Member(st.key.value);
      PathStep(Put(st.root, top, sub), top, step);
    }
  }

  /** StartArray then EndArray, where the new array is stored (at the root, in an open
      array, or under a key new to an open dictionary): the empty array is the
      innermost container in between, and closing it restores the stack of open
      containers and keeps the tree with the empty array in place. */
  lemma StartEndArray(st: BuilderState)
    requires st.Valid() && st.StartArray().Ok?
    requires st.Current().Some? && st.Current().value.Dict? ==> st.key.value !in st.Current().value.entries
    ensures var mid := st.StartArray().value;
      mid.Current() == Some(Array([])) && mid.EndArray().Ok? &&
      mid.EndArray().value == mid.(stack := st.stack) && mid.EndArray().value.Valid()
  {
    var mid := st.StartArray().value;
    if |st.stack| > 0 {
      OpenedIsNew(st, Array([]));
    }
    AddNodeValid(st, Array([]));
    EndValid(mid);
  }

  // ---------------------------------------------------------------------------
  // The builder object

  class Builder {
    var root: Node
    var stack: seq<seq<Step>>
    var key: Option<string>

    function State(): BuilderState
      reads this
    {
      BuilderState(root, stack, key)
    }

    constructor ()
      ensures State() == EmptyBuilder
    {
      root := Null;
      stack := [];
      key := None;
    }

    /** AddNode. A failed call changes nothing. */
    method AddNode(node: Node) returns (error: Option<string>)
      modifies this
      ensures old(State()).AddNode(node).Ok? ==> error.None? && State() == old(State()).AddNode(node).value
      ensures old(State()).AddNode(node).Err? ==>
        error == Some(old(State()).AddNode(node).error) && State() == old(State())
    {
      error := None;
      if |stack| == 0 {
        if root.Null? {
          root := node;
          if IsContainer(node) {
            stack := [[]];
          }
        } else {
          error := Some("Attempt to add more than one root node");
        }
        return;
      }
      var top := stack[|stack| - 1];
      var current := Get(root, top);
      if current.Some? && current.value.Array? {
        var items := current.value.items;
        root := Put(root, top, Array(items + [node]));
        if IsContainer(node) {
          stack := stack + [top + [Item(|items|)]];
        }
      } else if current.Some? && current.value.Dict? {
        if key.None? {
          error := Some("Attempt to add value to dict without key");
          return;
        }
        var k := key.value;
        var entries := current.value.entries;
        if k !in entries {
          entries := entries[k := node];
        }
        root := Put(root, top, Dict(entries));
        if IsContainer(entries[k]) {
          stack := stack + [top + [Member(k)]];
        }
        key := None;
      } else {
        error := Some("Invalid node type");
      }
    }

    method StartDict() returns (error: Option<string>)
      modifies this
      ensures old(State()).StartDict().Ok? ==> error.None? && State() == old(State()).StartDict().value
      ensures old(State()).StartDict().Err? ==> error.Some? && State() == old(State())
    {
      error := AddNode(Dict(map[]));
    }

    method StartArray() returns (error: Option<string>)
      modifies this
      ensures old(State()).StartArray().Ok? ==> error.None? && State() == old(State()).StartArray().value
      ensures old(State()).StartArray().Err? ==> error.Some? && State() == old(State())
    {
      error := AddNode(Array([]));
    }

    method Value(value: Node) returns (error: Option<string>)
      modifies this
      ensures old(State()).Value(value).Ok? ==> error.None? && State() == old(State()).Value(value).value
      ensures old(State()).Value(value).Err? ==> error.Some? && State() == old(State())
    {
      error := AddNode(value);
    }

    method EndDict() returns (error: Option<string>)
      modifies this
      ensures old(State()).EndDict().Ok? ==> error.None? && State() == old(State()).EndDict().value
      ensures old(State()).EndDict().Err? ==> error.Some? && State() == old(State())
    {
      if |stack| == 0 || Get(root, stack[|stack| - 1]).None? || !Get(root, stack[|stack| - 1]).value.Dict? {
        return Some("EndDict called without matching StartDict");
      }
      stack := stack[..|stack| - 1];
      return None;
    }

    method EndArray() returns (error: Option<string>)
      modifies this
      ensures old(State()).EndArray().Ok? ==> error.None? && State() == old(State()).EndArray().value
      ensures old(State()).EndArray().Err? ==> error.Some? && State() == old(State())
    {
      if |stack| == 0 || Get(root, stack[|stack| - 1]).None? || !Get(root, stack[|stack| - 1]).value.Array? {
        return Some("EndArray called without matching StartArray");
      }
      stack := stack[..|stack| - 1];
      return None;
    }

    method Key(k: string) returns (error: Option<string>)
      modifies this
      ensures old(State()).SetKey(k).Ok? ==> error.None? && State() == old(State()).SetKey(k).value
      ensures old(State()).SetKey(k).Err? ==> error.Some? && State() == old(State())
    {
      if |stack| == 0 || Get(root, stack[|stack| - 1]).None? || !Get(root, stack[|stack| - 1]).value.Dict? {
        return Some("Key method called in wrong context");
      }
      key := Some(k);
      return None;
    }

    /** Build: CheckReady, then the root. */
    method Build() returns (r: Result<Node, string>)
      ensures r == State().Build()
    {
      if (|stack| == 0 && root.Null?) || key.Some? {
        return Err("JSON is not complete");
      }
      return Ok(root);
    }
  }
}
