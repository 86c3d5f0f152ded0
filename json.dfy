/** JSON documents: the node variant with its checked accessors, and the indented printer
    with its string escaping. Output is returned as a string rather than written to a
    stream. */
module Json {
  import opened Wrappers
  import opened Text

  /** One of seven alternatives: null, an array, a dictionary ordered by key, a bool, an
      int, a double or a string. A double is kept as a real number; its decimal form is
      not modelled. */
  datatype Node =
    | Null
    | Array(items: seq<Node>)
    | Dict(entries: map<string, Node>)
    | Bool(flag: bool)
    | Int(number: Int32)
    | Double(value: real)
    | Str(text: string)
  {
    predicate IsNull() { Null? }
    predicate IsArray() { Array? }
    predicate IsMap() { Dict? }
    predicate IsBool() { Bool? }
    predicate IsInt() { Int? }
    /** An int counts as a double too. */
    predicate IsDouble() { Double? || Int? }
    predicate IsPureDouble() { Double? }
    predicate IsString() { Str? }

    /** The accessors fail with std::logic_error on any other alternative, and give back
        the value the node was made from. */
    function AsInt(): (r: Result<Int32, string>)
      ensures r.Ok? <==> IsInt()
      ensures r.Ok? ==> Int(r.value) == this
    {
      if Int? then Ok(number) else Err("Node is not an int")
    }

    function AsBool(): (r: Result<bool, string>)
      ensures r.Ok? <==> IsBool()
      ensures r.Ok? ==> Bool(r.value) == this
    {
      if Bool? then Ok(flag) else Err("Node is not a bool")
    }

    /** An int is converted; static_cast<double> of a 32-bit int is exact. */
    function AsDouble(): (r: Result<real, string>)
      ensures r.Ok? <==> IsDouble()
      ensures IsPureDouble() ==> r.Ok? && Double(r.value) == this
      ensures IsInt() ==> r == Ok(AsInt().value as real)
    {
      if Int? then Ok(number as real)
      else if Double? then Ok(value)
      else Err("Node is not a double")
    }

    function AsString(): (r: Result<string, string>)
      ensures r.Ok? <==> IsString()
      ensures r.Ok? ==> Str(r.value) == this
    {
      if Str? then Ok(text) else Err("Node is not a string")
    }

    function AsArray(): (r: Result<seq<Node>, string>)
      ensures r.Ok? <==> IsArray()
      ensures r.Ok? ==> Array(r.value) == this
    {
      if Array? then Ok(items) else Err("Node is not an array")
    }

    function AsMap(): (r: Result<map<string, Node>, string>)
      ensures r.Ok? <==> IsMap()
      ensures r.Ok? ==> Dict(r.value) == this
    {
      if Dict? then Ok(entries) else Err("Node is not a map")
    }
  }

  /** Exactly one of the alternative tests holds of a node, counting IsDouble only for a
      node that is not an int. */
  lemma OneAlternative(node: Node)
    ensures (if node.IsNull() then 1 else 0) + (if node.IsArray() then 1 else 0) +
            (if node.IsMap() then 1 else 0) + (if node.IsBool() then 1 else 0) +
            (if node.IsInt() then 1 else 0) + (if node.IsPureDouble() then 1 else 0) +
            (if node.IsString() then 1 else 0) == 1
    ensures node.IsDouble() <==> node.IsInt() || node.IsPureDouble()
  {
  }

  // ---------------------------------------------------------------------------
  // PrintString

  /** The escape PrintString writes for one character. */
  function EscapeChar(c: char): string {
    if c == '\r' then "\\r"
    else if c == '\n' then "\\n"
    else if c == '"' then "\\\""
    else if c == '\\' then "\\\\"
    else if c == '\t' then "\\t"
    else [c]
  }

  function Escape(v: string): string {
    if |v| == 0 then [] else EscapeChar(v[0]) + Escape(v[1..])
  }

  /** What PrintString writes: the escaped text between double quotes. */
  function Quoted(v: string): string {
    "\"" + Escape(v) + "\""
  }

  /** Escaping one more character appends its escape. */
  lemma {:induction false} EscapeSnoc(v: string, c: char)
    ensures Escape(v + [c]) == Escape(v) + EscapeChar(c)
    decreases |v|
  {
    if |v| == 0 {
      assert Escape([c]) == EscapeChar(c) + Escape([]);
    } else {
      assert (v + [c])[0] == v[0] && (v + [c])[1..] == v[1..] + [c];
      EscapeSnoc(v[1..], c);
    }
  }

  /** An escaped text holds no raw line break. */
  lemma {:induction false} EscapeShape(v: string)
    ensures forall k :: 0 <= k < |Escape(v)| ==> Escape(v)[k] != '\n' && Escape(v)[k] != '\r'
    decreases |v|
  {
    if |v| > 0 {
      EscapeShape(v[1..]);
      var head := EscapeChar(v[0]);
      var e := Escape(v);
      forall k | 0 <= k < |e| ensures e[k] != '\n' && e[k] != '\r' {
        if k >= |head| { assert e[k] == Escape(v[1..])[k - |head|]; }
      }
    }
  }

  /** PrintString: the loop over the characters of the value. */
  method PrintString(v: string) returns (out: string)
    ensures out == Quoted(v)
  {
    out := "\"";
    var i := 0;
    while i < |v|
      invariant 0 <= i <= |v|
      invariant out == "\"" + Escape(v[..i])
    {
      EscapeSnoc(v[..i], v[i]);
      assert v[..i + 1] == v[..i] + [v[i]];
      var c := v[i];
      if c == '\r' {
        out := out + "\\r";
      } else if c == '\n' {
        out := out + "\\n";
      } else if c == '"' {
        out := out + "\\\"";
      } else if c == '\\' {
        out := out + "\\\\";
      } else if c == '\t' {
        out := out + "\\t";
      } else {
        out := out + [c];
      }
      i := i + 1;
    }
    assert v[..i] == v;
    out := out + "\"";
  }

  // ---------------------------------------------------------------------------
  // PrintContext and the indented printer

  datatype PrintContext = PrintContext(indentStep: int, indent: int) {
    /** The context one level deeper: the same step, the indent raised by one step. */
    function Indented(): PrintContext {
      PrintContext(indentStep, indentStep + indent)
    }
  }

  /** The context Print starts with. */
  const DefaultContext := PrintContext(4, 0)

  /** What PrintIndent writes: `indent` blanks, none for a negative indent. */
  function IndentText(ctx: PrintContext): string {
    if ctx.indent > 0 then Spaces(ctx.indent) else []
  }

  /** PrintContext::PrintIndent: writes the blanks one at a time. */
  method PrintIndent(ctx: PrintContext) returns (out: string)
    ensures |out| == (if ctx.indent > 0 then ctx.indent else 0) && AllAre(out, ' ')
    ensures out == IndentText(ctx)
  {
    out := [];
    var i := 0;
    while i < ctx.indent
      invariant 0 <= i <= (if ctx.indent > 0 then ctx.indent else 0)
      invariant out == Spaces(i)
    {
      out := out + " ";
      i := i + 1;
    }
  }

  /** The texts joined by a comma and a line break. */
  function Lines(texts: seq<string>): string {
    if |texts| == 0 then []
    else if |texts| == 1 then texts[0]
    else texts[0] + ",\n" + Lines(texts[1..])
  }

  /** Joining one more text adds a comma, a line break and that text. */
  lemma {:induction false} LinesSnoc(texts: seq<string>, t: string)
    ensures Lines(texts + [t]) == Lines(texts) + (if |texts| > 0 then ",\n" else []) + t
    decreases |texts|
  {
    if |texts| > 1 {
      assert (texts + [t])[1..] == texts[1..] + [t];
      LinesSnoc(texts[1..], t);
    } else if |texts| == 1 {
      assert (texts + [t])[1..] == [t];
    }
  }

  /** What PrintNode writes for a node in a context; `formatDouble` stands for operator<< on
      a double. An array or a dictionary opens a line, writes each element on its own line
      one step deeper, separated by commas, and closes on a line of its own at the
      context's indent; the dictionary goes through its keys in increasing order. */
  ghost function Printed(node: Node, ctx: PrintContext, formatDouble: real -> string): string
    decreases node, 1
  {
    match node
    case Null => "null"
    case Bool(b) => if b then "true" else "false"
    case Int(n) => IntToString(n)
    case Double(d) => formatDouble(d)
    case Str(v) => Quoted(v)
    case Array(_) => "[\n" + Lines(ItemTexts(node, ctx.Indented(), formatDouble)) + "\n" + IndentText(ctx) + "]"
    case Dict(entries) =>
      "{\n" + Lines(EntryTexts(node, SortedList(entries.Keys), ctx.Indented(), formatDouble)) + "\n" + IndentText(ctx) + "}"
  }

  /** Each element of an array on its line. */
  ghost function ItemTexts(node: Node, inner: PrintContext, formatDouble: real -> string): (r: seq<string>)
    requires node.Array?
    ensures |r| == |node.items|
    decreases node, 0
  {
    seq(|node.items|, i requires 0 <= i < |node.items| =>
      IndentText(inner) + Printed(node.items[i], inner, formatDouble))
  }

  /** Each entry of a dictionary on its line, in the order of `keys`. */
  ghost function EntryTexts(node: Node, keys: seq<string>, inner: PrintContext, formatDouble: real -> string): (r: seq<string>)
    requires node.Dict? && forall k :: k in keys ==> k in node.entries
    ensures |r| == |keys|
    decreases node, 0
  {
    seq(|keys|, i requires 0 <= i < |keys| =>
      IndentText(inner) + Quoted(keys[i]) + ": " + Printed(node.entries[keys[i]], inner, formatDouble))
  }

  /** PrintNode: dispatches on the alternative the node holds. */
  method PrintNode(node: Node, ctx: PrintContext, formatDouble: real -> string) returns (out: string)
    ensures out == Printed(node, ctx, formatDouble)
    decreases node, 1
  {
    match node
    case Null => out := "null";
    case Bool(b) => out := if b then "true" else "false";
    case Int(n) => out := IntToString(n);
    case Double(d) => out := formatDouble(d);
    case Str(v) => out := PrintString(v);
    case Array(_) => out := PrintArray(node, ctx, formatDouble);
    case Dict(_) => out := PrintDict(node, ctx, formatDouble);
  }

  /** PrintValue on an array. */
  method PrintArray(node: Node, ctx: PrintContext, formatDouble: real -> string) returns (out: string)
    requires node.Array?
    ensures out == Printed(node, ctx, formatDouble)
    decreases node, 0
  {
    var inner := ctx.Indented();
    ghost var texts := ItemTexts(node, inner, formatDouble);
    var body := [];
    var i := 0;
    while i < |node.items|
      invariant 0 <= i <= |node.items|
      invariant body == Lines(texts[..i])
    {
      var indent := PrintIndent(inner);
      var item := PrintNode(node.items[i], inner, formatDouble);
      LinesSnoc(texts[..i], indent + item);
      assert texts[..i + 1] == texts[..i] + [indent + item];
      if i > 0 {
        body := body + ",\n";
      }
      body := body + (indent + item);
      i := i + 1;
    }
    assert texts[..i] == texts;
    var closing := PrintIndent(ctx);
    out := "[\n" + body + "\n" + closing + "]";
  }

  /** PrintValue on a dictionary: the loop over a std::map visits the keys from the least
      up. The keys are written with the outer stream, at the inner indent. */
  method PrintDict(node: Node, ctx: PrintContext, formatDouble: real -> string) returns (out: string)
    requires node.Dict?
    ensures out == Printed(node, ctx, formatDouble)
    decreases node, 0
  {
    var inner := ctx.Indented();
    ghost var keys := SortedList(node.entries.Keys);
    var body := [];
    var rest := node.entries.Keys;
    ghost var done: seq<string> := [];
    var first := true;
    while rest != {}
      invariant rest <= node.entries.Keys
      invariant first <==> done == []
      invariant done + SortedList(rest) == keys
      invariant forall k :: k in done ==> k in node.entries
      invariant body == Lines(EntryTexts(node, done, inner, formatDouble))
      decreases |rest|
    {
      LeastExists(rest);
      var key :| key in rest && IsLeast(key, rest);
      SortedListFirst(rest, key);
      MoveKey(done, key, SortedList(rest - {key}), keys);
      var indent := PrintIndent(inner);
      var quoted := PrintString(key);
      var value := PrintNode(node.entries[key], inner, formatDouble);
      EntryTextsSnoc(node, done, key, inner, formatDouble);
      LinesSnoc(EntryTexts(node, done, inner, formatDouble), indent + quoted + ": " + value);
      if first {
        first := false;
      } else {
        body := body + ",\n";
      }
      body := body + (indent + quoted + ": " + value);
      done := done + [key];
      rest := rest - {key};
    }
    assert SortedList(rest) == [];
    assert done == keys;
    var closing := PrintIndent(ctx);
    out := "{\n" + body + "\n" + closing + "}";
  }

  /** Moving the least remaining key to the written ones keeps the whole key order. */
  lemma MoveKey(done: seq<string>, key: string, left: seq<string>, whole: seq<string>)
    requires done + ([key] + left) == whole
    ensures (done + [key]) + left == whole
  {
    assert (done + [key]) + left == done + ([key] + left);
  }

  /** One more key adds its entry's line. */
  lemma EntryTextsSnoc(node: Node, keys: seq<string>, key: string, inner: PrintContext, formatDouble: real -> string)
    requires node.Dict? && key in node.entries && forall k :: k in keys ==> k in node.entries
    ensures EntryTexts(node, keys + [key], inner, formatDouble) ==
      EntryTexts(node, keys, inner, formatDouble) +
      [IndentText(inner) + Quoted(key) + ": " + Printed(node.entries[key], inner, formatDouble)]
  {
  }

  /** Print: the root printed in the default context. */
  method Print(root: Node, formatDouble: real -> string) returns (out: string)
    ensures out == Printed(root, DefaultContext, formatDouble)
  {
    out := PrintNode(root, DefaultContext, formatDouble);
  }
}
