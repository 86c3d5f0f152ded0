/** Loading what the printer wrote: a document without doubles, printed in any context
    and followed by a comma, a line break or nothing, loads back as the same node and
    stops right after it. */
module JsonRoundTrip {
  import opened Wrappers
  import opened Text
  import opened Json
  import opened JsonLoad

  /** No double anywhere in the node (operator<< on a double and std::stod are
      parameters of the model, so their round trip is not known). */
  predicate DoubleFree(node: Node)
    decreases node
  {
    match node
    case Double(_) => false
    case Array(items) => forall i :: 0 <= i < |items| ==> DoubleFree(items[i])
    case Dict(entries) => forall k :: k in entries ==> DoubleFree(entries[k])
    case _ => true
  }

  /** What may follow a printed node: the end of the input, the comma before the next
      element or the line break before the closing bracket. */
  predicate Ends(s: string, e: nat) {
    e == |s| || (e < |s| && (s[e] == ',' || s[e] == '\n'))
  }

  /** The closing line of an array or a dictionary. */
  function Closing(ctx: PrintContext, bracket: char): string {
    "\n" + IndentText(ctx) + [bracket]
  }

  /** The body of a container from its k-th line on: the lines, each after the first
      preceded by a comma and a line break, then the closing line. */
  function RestOf(lines: seq<string>, k: nat, closing: string): string
    requires k <= |lines|
    decreases |lines| - k
  {
    if k == |lines| then closing
    else (if k == 0 then [] else ",\n") + lines[k] + RestOf(lines, k + 1, closing)
  }

  // ---------------------------------------------------------------------------
  // Text located by index

  lemma TextAtParts(s: string, pos: nat, a: string, b: string)
    requires TextAt(s, pos, a + b)
    ensures TextAt(s, pos, a) && TextAt(s, pos + |a|, b)
  {
    forall k | 0 <= k < |a|
      ensures s[pos + k] == a[k]
    {
      assert (a + b)[k] == a[k];
    }
    forall k | 0 <= k < |b|
      ensures s[pos + |a| + k] == b[k]
    {
      assert s[pos + (|a| + k)] == (a + b)[|a| + k];
    }
  }

  lemma TextAtSlice(s: string, pos: nat, t: string)
    requires TextAt(s, pos, t)
    ensures s[pos..pos + |t|] == t
  {
    forall k | 0 <= k < |t|
      ensures s[pos..pos + |t|][k] == t[k]
    {
      assert s[pos + k] == t[k];
    }
  }

  /** White space located at `pos` is skipped. */
  lemma SkipBlanks(s: string, pos: nat, blanks: string)
    requires TextAt(s, pos, blanks) && forall k :: 0 <= k < |blanks| ==> IsSpace(blanks[k])
    ensures SkipSpace(s, pos) == SkipSpace(s, pos + |blanks|)
  {
    forall k | pos <= k < pos + |blanks|
      ensures IsSpace(s[k])
    {
      assert s[pos + (k - pos)] == blanks[k - pos];
    }
    SkipSpaceOver(s, pos, pos + |blanks|);
  }

  lemma SkipNone(s: string, pos: nat)
    requires pos < |s| && !IsSpace(s[pos])
    ensures SkipSpace(s, pos) == pos
  {
  }

  /** NodeAt looks at its position only through SkipSpace. */
  lemma NodeAtFrom(s: string, x: nat, y: nat, pd: string -> Option<real>)
    requires x <= |s| && y <= |s| && SkipSpace(s, x) == SkipSpace(s, y)
    ensures NodeAt(s, x, pd) == NodeAt(s, y, pd)
  {
  }

  // ---------------------------------------------------------------------------
  // The shape of printed text

  /** A printed node starts with the character that NodeAt dispatches on. */
  lemma PrintedStart(node: Node, ctx: PrintContext, fd: real -> string)
    requires DoubleFree(node)
    ensures var p := Printed(node, ctx, fd);
      |p| > 0 && !IsSpace(p[0]) && p[0] != ',' && p[0] != ']' && p[0] != '}'
  {
    if node.Int? {
      var n := node.number;
      if n >= 0 {
        assert IsDigit(NatToString(n)[0]);
      }
    }
  }

  /** After the k-th line comes a comma or the closing line break. */
  lemma RestFirst(lines: seq<string>, k: nat, closing: string)
    requires 0 < k <= |lines| && |closing| > 0 && closing[0] == '\n'
    ensures |RestOf(lines, k, closing)| > 0
    ensures RestOf(lines, k, closing)[0] == (if k < |lines| then ',' else '\n')
  {
    if k < |lines| {
      assert RestOf(lines, k, closing) == ",\n" + lines[k] + RestOf(lines, k + 1, closing);
    }
  }

  /** RestOf from the first line is the joined lines followed by the closing. */
  lemma {:induction false} LinesRest(lines: seq<string>, k: nat, closing: string)
    requires k <= |lines|
    ensures RestOf(lines, k, closing) ==
      (if 0 < k < |lines| then ",\n" else []) + Lines(lines[k..]) + closing
    decreases |lines| - k
  {
    if k < |lines| {
      LinesRest(lines, k + 1, closing);
      var sep: string := if k == 0 then [] else ",\n";
      var tail := lines[k + 1..];
      assert lines[k..] == [lines[k]] + tail;
      assert lines[k..][1..] == tail;
      if k + 1 < |lines| {
        assert Lines(lines[k..]) == lines[k] + ",\n" + Lines(tail);
        assert RestOf(lines, k, closing) == sep + lines[k] + (",\n" + Lines(tail) + closing);
        assert sep + lines[k] + (",\n" + Lines(tail) + closing) == sep + (lines[k] + ",\n" + Lines(tail)) + closing;
      } else {
        assert Lines(lines[k..]) == lines[k];
        assert Lines(tail) == [];
        assert RestOf(lines, k, closing) == sep + lines[k] + closing;
      }
    }
  }

  /** The k-th line and what follows it. */
  lemma RestStep(lines: seq<string>, k: nat, closing: string)
    requires k < |lines|
    ensures RestOf(lines, k, closing) ==
      (if k == 0 then [] else ",\n") + lines[k] + RestOf(lines, k + 1, closing)
  {
  }

  // ---------------------------------------------------------------------------
  // The layout of containers

  /** The body and the closing line of a container are its lines from the first. */
  lemma ContainerRest(head: string, lines: seq<string>, ctx: PrintContext, bracket: char)
    ensures head + Lines(lines) + "\n" + IndentText(ctx) + [bracket] == head + RestOf(lines, 0, Closing(ctx, bracket))
  {
    LinesRest(lines, 0, Closing(ctx, bracket));
    assert lines[0..] == lines;
  }

  /** An array prints as its opening bracket, a line break and its lines from the first. */
  lemma ArrayText(node: Node, ctx: PrintContext, fd: real -> string)
    requires node.Array?
    ensures Printed(node, ctx, fd) == "[\n" + RestOf(ItemTexts(node, ctx.Indented(), fd), 0, Closing(ctx, ']'))
  {
    ContainerRest("[\n", ItemTexts(node, ctx.Indented(), fd), ctx, ']');
  }

  /** A dictionary prints as its opening brace, a line break and its lines from the first. */
  lemma DictText(node: Node, ctx: PrintContext, fd: real -> string)
    requires node.Dict?
    ensures Printed(node, ctx, fd) ==
      "{\n" + RestOf(EntryTexts(node, SortedList(node.entries.Keys), ctx.Indented(), fd), 0, Closing(ctx, '}'))
  {
    ContainerRest("{\n", EntryTexts(node, SortedList(node.entries.Keys), ctx.Indented(), fd), ctx, '}');
  }

  /** One character of located text. */
  lemma CharAt(s: string, pos: nat, t: string, k: nat)
    requires TextAt(s, pos, t) && k < |t|
    ensures pos + k < |s| && s[pos + k] == t[k]
  {
  }

  /** The layout of one line: separator, line, then what follows; the line itself is an
      indent and a text. */
  lemma LineParts(s: string, a: nat, sep: string, line: string, indent: string, text: string, rest: string)
    requires TextAt(s, a, sep + line + rest) && line == indent + text
    ensures TextAt(s, a, sep) && TextAt(s, a + |sep|, indent)
    ensures TextAt(s, a + |sep| + |indent|, text)
    ensures TextAt(s, a + |sep| + |indent| + |text|, rest)
  {
    TextAtParts(s, a, sep + line, rest);
    TextAtParts(s, a, sep, line);
    TextAtParts(s, a + |sep|, indent, text);
  }

  /** The separator before a line: nothing, or a comma and a line break that lead on to
      the line's first character. */
  lemma SeparatorAt(s: string, a: nat, sep: string, next: nat)
    requires sep == [] || sep == ",\n"
    requires TextAt(s, a, sep) && next == a + |sep|
    ensures sep != [] ==> s[a] == ',' && SkipSpace(s, a) == a && SkipSpace(s, a + 1) == SkipSpace(s, next)
  {
    if sep != [] {
      CharAt(s, a, sep, 0);
      CharAt(s, a, sep, 1);
      SkipBlanks(s, a + 1, "\n");
    }
  }

  /** The indent before a line's text, which starts with a character that is not blank. */
  lemma IndentAt(s: string, b: nat, indent: string, text: string, ctx: PrintContext)
    requires indent == IndentText(ctx) && TextAt(s, b, indent) && TextAt(s, b + |indent|, text)
    requires |text| > 0 && !IsSpace(text[0])
    ensures SkipSpace(s, b) == b + |indent| && s[b + |indent|] == text[0]
  {
    CharAt(s, b + |indent|, text, 0);
    SkipBlanks(s, b, indent);
    SkipNone(s, b + |indent|);
  }

  /** What follows a line ends the node printed on it. */
  lemma LineEnds(s: string, next: nat, lines: seq<string>, k: nat, closing: string)
    requires 0 < k <= |lines| && |closing| > 0 && closing[0] == '\n'
    requires TextAt(s, next, RestOf(lines, k, closing))
    ensures Ends(s, next)
  {
    RestFirst(lines, k, closing);
    CharAt(s, next, RestOf(lines, k, closing), 0);
  }

  /** The closing line: blanks up to the bracket. */
  lemma ClosingAt(s: string, a: nat, ctx: PrintContext, bracket: char)
    requires !IsSpace(bracket) && TextAt(s, a, Closing(ctx, bracket))
    ensures SkipSpace(s, a) == a + |Closing(ctx, bracket)| - 1
    ensures s[a + |Closing(ctx, bracket)| - 1] == bracket
  {
    var indent := IndentText(ctx);
    TextAtParts(s, a, "\n" + indent, [bracket]);
    TextAtParts(s, a, "\n", indent);
    CharAt(s, a, "\n", 0);
    CharAt(s, a + |"\n" + indent|, [bracket], 0);
    SkipBlanks(s, a, "\n");
    SkipBlanks(s, a + 1, indent);
    SkipNone(s, a + 1 + |indent|);
  }

  // ---------------------------------------------------------------------------
  // Steps of the reader

  lemma OpenArray(s: string, pos: nat, pd: string -> Option<real>, r: Loaded<Node>)
    requires pos + 2 <= |s| && s[pos] == '[' && s[pos + 1] == '\n'
    requires ArrayAt(s, pos + 2, [], pd) == r
    ensures NodeAt(s, pos, pd) == r
  {
    SkipNone(s, pos);
    SkipBlanks(s, pos + 1, "\n");
  }

  lemma OpenDict(s: string, pos: nat, pd: string -> Option<real>, r: Loaded<Node>)
    requires pos + 2 <= |s| && s[pos] == '{' && s[pos + 1] == '\n'
    requires DictAt(s, pos + 2, map[], pd) == r
    ensures NodeAt(s, pos, pd) == r
  {
    SkipNone(s, pos);
    SkipBlanks(s, pos + 1, "\n");
  }

  lemma CloseArray(s: string, a: nat, acc: seq<Node>, pd: string -> Option<real>)
    requires a <= |s| && SkipSpace(s, a) < |s| && s[SkipSpace(s, a)] == ']'
    ensures ArrayAt(s, a, acc, pd) == Ok((Array(acc), SkipSpace(s, a) + 1))
  {
  }

  lemma CloseDict(s: string, a: nat, acc: map<string, Node>, pd: string -> Option<real>)
    requires a <= |s| && SkipSpace(s, a) < |s| && s[SkipSpace(s, a)] == '}'
    ensures DictAt(s, a, acc, pd) == Ok((Dict(acc), SkipSpace(s, a) + 1))
  {
  }

  /** One element of an array: with the element read from `start` to `next`, reading the
      array from `a` goes on from `next`. */
  lemma ItemStep(s: string, a: nat, acc: seq<Node>, item: Node, comma: bool, start: nat, next: nat,
                 pd: string -> Option<real>, r: Loaded<Node>)
    requires a <= start < |s| && next <= |s|
    requires comma ==> s[a] == ',' && SkipSpace(s, a) == a && SkipSpace(s, a + 1) == start
    requires !comma ==> SkipSpace(s, a) == start
    requires s[start] != ']' && s[start] != ','
    requires NodeAt(s, start, pd) == Ok((item, next))
    requires ArrayAt(s, next, acc + [item], pd) == r
    ensures ArrayAt(s, a, acc, pd) == r
  {
    SkipNone(s, start);
    if comma {
      NodeAtFrom(s, a + 1, start, pd);
    }
  }

  /** The key of an entry read from its quote at `q` up to `keyEnd`, followed by a colon
      and a blank; before the quote, a comma and blanks or only blanks. */
  predicate KeyAt(s: string, a: nat, comma: bool, q: nat, key: string, keyEnd: nat) {
    a <= q < |s| && keyEnd + 1 < |s| && s[q] == '"' && StringAt(s, q + 1) == Ok((key, keyEnd)) &&
    s[keyEnd] == ':' && s[keyEnd + 1] == ' ' &&
    (comma ==> s[a] == ',' && SkipSpace(s, a) == a && SkipSpace(s, a + 1) == q) &&
    (!comma ==> SkipSpace(s, a) == q)
  }

  /** One entry of a dictionary: with the key read after its quote at `q` and the value
      read up to `next`, reading the dictionary from `a` goes on from `next`. */
  lemma EntryStep(s: string, a: nat, acc: map<string, Node>, key: string, value: Node, comma: bool,
                  q: nat, keyEnd: nat, next: nat, pd: string -> Option<real>, r: Loaded<Node>)
    requires KeyAt(s, a, comma, q, key, keyEnd) && key !in acc
    requires keyEnd + 2 <= |s| && NodeAt(s, keyEnd + 2, pd) == Ok((value, next))
    requires DictAt(s, next, acc[key := value], pd) == r
    ensures DictAt(s, a, acc, pd) == r
  {
    SkipNone(s, keyEnd);
    SkipBlanks(s, keyEnd + 1, " ");
    NodeAtFrom(s, keyEnd + 1, keyEnd + 2, pd);
  }

  // ---------------------------------------------------------------------------
  // The round trip

  /** A double-free node printed at `pos` in any context, followed by a comma, a line
      break or the end of the input, loads back as itself and ends after its text. */
  lemma {:induction false} LoadPrinted(node: Node, ctx: PrintContext, fd: real -> string, s: string, pos: nat,
                                       pd: string -> Option<real>)
    requires DoubleFree(node)
    requires TextAt(s, pos, Printed(node, ctx, fd)) && Ends(s, pos + |Printed(node, ctx, fd)|)
    ensures NodeAt(s, pos, pd) == Ok((node, pos + |Printed(node, ctx, fd)|))
    decreases node, 2
  {
    if node.Array? {
      LoadArray(node, ctx, fd, s, pos, pd);
    } else if node.Dict? {
      LoadDict(node, ctx, fd, s, pos, pd);
    } else {
      LoadScalar(node, ctx, fd, s, pos, pd);
    }
  }

  /** null, a bool, an int or a string. */
  lemma LoadScalar(node: Node, ctx: PrintContext, fd: real -> string, s: string, pos: nat,
                   pd: string -> Option<real>)
    requires DoubleFree(node) && !node.Array? && !node.Dict?
    requires TextAt(s, pos, Printed(node, ctx, fd)) && Ends(s, pos + |Printed(node, ctx, fd)|)
    ensures NodeAt(s, pos, pd) == Ok((node, pos + |Printed(node, ctx, fd)|))
  {
    match node {
      case Null => LoadNull(s, pos, pd);
      case Bool(b) => LoadBool(b, s, pos, pd);
      case Int(n) => LoadInt(n, s, pos, pd);
      case Str(v) => LoadStr(v, s, pos, pd);
    }
  }

  lemma LoadNull(s: string, pos: nat, pd: string -> Option<real>)
    requires TextAt(s, pos, "null") && Ends(s, pos + 4)
    ensures NodeAt(s, pos, pd) == Ok((Null, pos + 4))
  {
    CharAt(s, pos, "null", 0);
    SkipNone(s, pos);
    TextAtSlice(s, pos, "null");
    NullSpec(s, pos);
  }

  lemma LoadBool(b: bool, s: string, pos: nat, pd: string -> Option<real>)
    requires TextAt(s, pos, if b then "true" else "false") && Ends(s, pos + |if b then "true" else "false"|)
    ensures NodeAt(s, pos, pd) == Ok((Bool(b), pos + |if b then "true" else "false"|))
  {
    var word := if b then "true" else "false";
    CharAt(s, pos, word, 0);
    SkipNone(s, pos);
    TextAtSlice(s, pos, word);
    BoolSpec(s, pos);
  }

  lemma LoadInt(n: Int32, s: string, pos: nat, pd: string -> Option<real>)
    requires TextAt(s, pos, IntToString(n)) && Ends(s, pos + |IntToString(n)|)
    ensures NodeAt(s, pos, pd) == Ok((Int(n), pos + |IntToString(n)|))
  {
    IntFirst(n);
    CharAt(s, pos, IntToString(n), 0);
    SkipNone(s, pos);
    TextAtSlice(s, pos, IntToString(n));
    IntRoundTripAt(s, pos, n, pd);
  }

  lemma LoadStr(v: string, s: string, pos: nat, pd: string -> Option<real>)
    requires TextAt(s, pos, Quoted(v))
    ensures NodeAt(s, pos, pd) == Ok((Str(v), pos + |Quoted(v)|))
  {
    CharAt(s, pos, Quoted(v), 0);
    SkipNone(s, pos);
    LoadQuoted(s, pos, v);
  }

  lemma IntFirst(n: Int32)
    ensures IntToString(n)[0] == '-' || IsDigit(IntToString(n)[0])
  {
    if n >= 0 {
      assert IsDigit(NatToString(n)[0]);
    }
  }

  /** A quoted text located at `pos` reads back as the text. */
  lemma LoadQuoted(s: string, pos: nat, v: string)
    requires TextAt(s, pos, Quoted(v))
    ensures StringAt(s, pos + 1) == Ok((v, pos + |Quoted(v)|))
  {
    TextAtParts(s, pos, "\"" + Escape(v), "\"");
    TextAtParts(s, pos, "\"", Escape(v));
    CharAt(s, pos + |"\"" + Escape(v)|, "\"", 0);
    EscapedAt(s, pos + 1, v);
  }

  lemma {:induction false} LoadArray(node: Node, ctx: PrintContext, fd: real -> string, s: string, pos: nat,
                                     pd: string -> Option<real>)
    requires node.Array? && DoubleFree(node)
    requires TextAt(s, pos, Printed(node, ctx, fd))
    ensures NodeAt(s, pos, pd) == Ok((node, pos + |Printed(node, ctx, fd)|))
    decreases node, 1
  {
    var rest := RestOf(ItemTexts(node, ctx.Indented(), fd), 0, Closing(ctx, ']'));
    ArrayText(node, ctx, fd);
    TextAtParts(s, pos, "[\n", rest);
    CharAt(s, pos, "[\n", 0);
    CharAt(s, pos, "[\n", 1);
    LoadItems(node, ctx, fd, s, pos + 2, 0, pos + 2 + |rest|, pd);
    assert node.items[..0] == [];
    OpenArray(s, pos, pd, Ok((node, pos + 2 + |rest|)));
  }

  lemma {:induction false} LoadDict(node: Node, ctx: PrintContext, fd: real -> string, s: string, pos: nat,
                                    pd: string -> Option<real>)
    requires node.Dict? && DoubleFree(node)
    requires TextAt(s, pos, Printed(node, ctx, fd))
    ensures NodeAt(s, pos, pd) == Ok((node, pos + |Printed(node, ctx, fd)|))
    decreases node, 1
  {
    var keys := SortedList(node.entries.Keys);
    DictOpening(node, ctx, fd, s, pos);
    SortedKeyOrder(node);
    LoadEntries(node, keys, ctx, fd, s, pos + 2, 0, pos + |Printed(node, ctx, fd)|, pd);
    OpenDict(s, pos, pd, Ok((node, pos + |Printed(node, ctx, fd)|)));
  }

  /** A printed dictionary opens with a brace and a line break, then come its lines. */
  lemma DictOpening(node: Node, ctx: PrintContext, fd: real -> string, s: string, pos: nat)
    requires node.Dict? && TextAt(s, pos, Printed(node, ctx, fd))
    ensures pos + 2 <= |s| && s[pos] == '{' && s[pos + 1] == '\n'
    ensures TextAt(s, pos + 2, RestOf(EntryTexts(node, SortedList(node.entries.Keys), ctx.Indented(), fd), 0,
                                      Closing(ctx, '}')))
    ensures |Printed(node, ctx, fd)| ==
      2 + |RestOf(EntryTexts(node, SortedList(node.entries.Keys), ctx.Indented(), fd), 0, Closing(ctx, '}'))|
  {
    var rest := RestOf(EntryTexts(node, SortedList(node.entries.Keys), ctx.Indented(), fd), 0, Closing(ctx, '}'));
    DictText(node, ctx, fd);
    TextAtParts(s, pos, "{\n", rest);
    CharAt(s, pos, "{\n", 0);
    CharAt(s, pos, "{\n", 1);
  }

  /** The elements of an array from the k-th on, after the first k were read. */
  lemma {:induction false} LoadItems(node: Node, ctx: PrintContext, fd: real -> string, s: string, a: nat, k: nat,
                                     end: nat, pd: string -> Option<real>)
    requires node.Array? && DoubleFree(node) && k <= |node.items|
    requires TextAt(s, a, RestOf(ItemTexts(node, ctx.Indented(), fd), k, Closing(ctx, ']')))
    requires end == a + |RestOf(ItemTexts(node, ctx.Indented(), fd), k, Closing(ctx, ']'))|
    ensures ArrayAt(s, a, node.items[..k], pd) == Ok((node, end))
    decreases node, 0, |node.items| - k
  {
    var inner := ctx.Indented();
    var lines := ItemTexts(node, inner, fd);
    var closing := Closing(ctx, ']');
    if k == |lines| {
      ClosingAt(s, a, ctx, ']');
      CloseArray(s, a, node.items[..k], pd);
      assert node.items[..k] == node.items;
    } else {
      var item := node.items[k];
      var start, next := ItemLayout(node, ctx, fd, s, a, k);
      LoadPrinted(item, inner, fd, s, start, pd);
      LoadItems(node, ctx, fd, s, next, k + 1, end, pd);
      PrefixStep(node.items, k);
      ItemStep(s, a, node.items[..k], item, k > 0, start, next, pd, Ok((node, end)));
    }
  }

  lemma PrefixStep<T>(xs: seq<T>, k: nat)
    requires k < |xs|
    ensures xs[..k] + [xs[k]] == xs[..k + 1]
  {
  }

  /** Where the k-th element of a printed array lies, and what surrounds it. */
  lemma ItemLayout(node: Node, ctx: PrintContext, fd: real -> string, s: string, a: nat, k: nat)
    returns (start: nat, next: nat)
    requires node.Array? && DoubleFree(node) && k < |node.items|
    requires TextAt(s, a, RestOf(ItemTexts(node, ctx.Indented(), fd), k, Closing(ctx, ']')))
    ensures a <= start < |s| && s[start] != ']' && s[start] != ','
    ensures k > 0 ==> s[a] == ',' && SkipSpace(s, a) == a && SkipSpace(s, a + 1) == start
    ensures k == 0 ==> SkipSpace(s, a) == start
    ensures TextAt(s, start, Printed(node.items[k], ctx.Indented(), fd))
    ensures next == start + |Printed(node.items[k], ctx.Indented(), fd)| && Ends(s, next)
    ensures TextAt(s, next, RestOf(ItemTexts(node, ctx.Indented(), fd), k + 1, Closing(ctx, ']')))
    ensures next + |RestOf(ItemTexts(node, ctx.Indented(), fd), k + 1, Closing(ctx, ']'))| ==
      a + |RestOf(ItemTexts(node, ctx.Indented(), fd), k, Closing(ctx, ']'))|
  {
    var inner := ctx.Indented();
    var lines := ItemTexts(node, inner, fd);
    var closing := Closing(ctx, ']');
    var printed := Printed(node.items[k], inner, fd);
    RestStep(lines, k, closing);
    PrintedStart(node.items[k], inner, fd);
    start := LineAt(s, a, k > 0, lines[k], IndentText(inner), printed, RestOf(lines, k + 1, closing), inner);
    next := start + |printed|;
    LineEnds(s, next, lines, k + 1, closing);
  }

  /** One line of a container: the separator (a comma and a line break unless it is the
      first line), the indent and the text, followed by `rest`. Returns where the text
      starts. */
  lemma LineAt(s: string, a: nat, comma: bool, line: string, indent: string, text: string, rest: string,
               inner: PrintContext) returns (start: nat)
    requires TextAt(s, a, (if comma then ",\n" else []) + line + rest)
    requires line == indent + text && indent == IndentText(inner) && |text| > 0 && !IsSpace(text[0])
    ensures start == a + (if comma then 2 else 0) + |indent| && start < |s| && s[start] == text[0]
    ensures TextAt(s, start, text) && TextAt(s, start + |text|, rest)
    ensures comma ==> s[a] == ',' && SkipSpace(s, a) == a && SkipSpace(s, a + 1) == start
    ensures !comma ==> SkipSpace(s, a) == start
  {
    var sep: string := if comma then ",\n" else [];
    LineParts(s, a, sep, line, indent, text, rest);
    IndentAt(s, a + |sep|, indent, text, inner);
    SeparatorAt(s, a, sep, a + |sep|);
    start := a + |sep| + |indent|;
  }

  /** `keys` lists keys of the dictionary, none twice. */
  ghost predicate KeyOrder(node: Node, keys: seq<string>) {
    node.Dict? && (forall i :: 0 <= i < |keys| ==> keys[i] in node.entries) &&
    forall i, j :: 0 <= i < j < |keys| ==> keys[i] != keys[j]
  }

  /** The sorted keys list each key once. */
  lemma SortedKeyOrder(node: Node)
    requires node.Dict?
    ensures KeyOrder(node, SortedList(node.entries.Keys))
    ensures EntriesUpTo(node, SortedList(node.entries.Keys), |SortedList(node.entries.Keys)|) == node.entries
  {
    var keys := SortedList(node.entries.Keys);
    forall i, j | 0 <= i < j < |keys|
      ensures keys[i] != keys[j]
    {
      if keys[i] == keys[j] {
        assert Less(keys[i], keys[j]);
        LessIrreflexive(keys[i]);
      }
    }
    AllEntries(node, keys);
  }

  /** The entries of the first k keys, added one key at a time. */
  ghost function EntriesUpTo(node: Node, keys: seq<string>, k: nat): map<string, Node>
    requires KeyOrder(node, keys) && k <= |keys|
  {
    if k == 0 then map[]
    else EntriesUpTo(node, keys, k - 1)[keys[k - 1] := node.entries[keys[k - 1]]]
  }

  /** The first k keys are those of the entries read so far, with their values. */
  lemma {:induction false} EntriesUpToSpec(node: Node, keys: seq<string>, k: nat)
    requires KeyOrder(node, keys) && k <= |keys|
    ensures forall x :: x in EntriesUpTo(node, keys, k) <==> x in keys[..k]
    ensures forall x :: x in EntriesUpTo(node, keys, k) ==> EntriesUpTo(node, keys, k)[x] == node.entries[x]
  {
    if k > 0 {
      EntriesUpToSpec(node, keys, k - 1);
      assert keys[..k] == keys[..k - 1] + [keys[k - 1]];
    }
  }

  /** The k-th key is not among the first k. */
  lemma EntriesStep(node: Node, keys: seq<string>, k: nat)
    requires KeyOrder(node, keys) && k < |keys|
    ensures keys[k] in node.entries && keys[k] !in EntriesUpTo(node, keys, k)
  {
    assert keys[k] in keys;
    EntriesUpToSpec(node, keys, k);
  }

  lemma AllEntries(node: Node, keys: seq<string>)
    requires KeyOrder(node, keys) && forall x :: x in node.entries ==> x in keys
    ensures EntriesUpTo(node, keys, |keys|) == node.entries
  {
    EntriesUpToSpec(node, keys, |keys|);
    assert keys[..|keys|] == keys;
  }

  /** The layout of one entry after its indent: the quoted key, a colon and a blank, and
      the printed value. */
  lemma EntryParts(s: string, q: nat, key: string, printed: string)
    requires TextAt(s, q, Quoted(key) + ": " + printed)
    ensures s[q] == '"' && StringAt(s, q + 1) == Ok((key, q + |Quoted(key)|))
    ensures q + |Quoted(key)| + 1 < |s| && s[q + |Quoted(key)|] == ':' && s[q + |Quoted(key)| + 1] == ' '
    ensures TextAt(s, q + |Quoted(key)| + 2, printed)
  {
    TextAtParts(s, q, Quoted(key) + ": ", printed);
    TextAtParts(s, q, Quoted(key), ": ");
    CharAt(s, q, Quoted(key), 0);
    LoadQuoted(s, q, key);
    CharAt(s, q + |Quoted(key)|, ": ", 0);
    CharAt(s, q + |Quoted(key)|, ": ", 1);
  }

  /** The entries of a dictionary from the k-th key on, after the first k were read. */
  lemma {:induction false} LoadEntries(node: Node, keys: seq<string>, ctx: PrintContext, fd: real -> string, s: string,
                                       a: nat, k: nat, end: nat, pd: string -> Option<real>)
    requires KeyOrder(node, keys) && DoubleFree(node) && k <= |keys|
    requires TextAt(s, a, RestOf(EntryTexts(node, keys, ctx.Indented(), fd), k, Closing(ctx, '}')))
    requires end == a + |RestOf(EntryTexts(node, keys, ctx.Indented(), fd), k, Closing(ctx, '}'))|
    ensures DictAt(s, a, EntriesUpTo(node, keys, k), pd) == Ok((Dict(EntriesUpTo(node, keys, |keys|)), end))
    decreases node, 0, |keys| - k, 2
  {
    if k == |keys| {
      ClosingAt(s, a, ctx, '}');
      CloseDict(s, a, EntriesUpTo(node, keys, k), pd);
    } else {
      LoadEntryAndRest(node, keys, ctx, fd, s, a, k, end, pd);
    }
  }

  /** The k-th entry and the entries after it. */
  lemma {:induction false} LoadEntryAndRest(node: Node, keys: seq<string>, ctx: PrintContext, fd: real -> string,
                                            s: string, a: nat, k: nat, end: nat, pd: string -> Option<real>)
    requires KeyOrder(node, keys) && DoubleFree(node) && k < |keys|
    requires TextAt(s, a, RestOf(EntryTexts(node, keys, ctx.Indented(), fd), k, Closing(ctx, '}')))
    requires end == a + |RestOf(EntryTexts(node, keys, ctx.Indented(), fd), k, Closing(ctx, '}'))|
    ensures DictAt(s, a, EntriesUpTo(node, keys, k), pd) == Ok((Dict(EntriesUpTo(node, keys, |keys|)), end))
    decreases node, 0, |keys| - k, 1
  {
    var inner := ctx.Indented();
    var printed := EntryTextIs(node, keys, inner, fd, k);
    var q := a + (if k == 0 then 0 else 2) + |IndentText(inner)|;
    var next := q + |Quoted(keys[k])| + 2 + |printed|;
    DictLineRest(s, a, k, EntryTexts(node, keys, inner, fd), Closing(ctx, '}'), IndentText(inner), keys[k], printed,
                 next);
    LoadEntries(node, keys, ctx, fd, s, next, k + 1, end, pd);
    LoadEntry(node, keys, ctx, fd, s, a, k, q, q + |Quoted(keys[k])|, next, end, pd);
  }

  /** The k-th entry of a printed dictionary, read before the entries after it. */
  lemma {:induction false} LoadEntry(node: Node, keys: seq<string>, ctx: PrintContext, fd: real -> string, s: string,
                                     a: nat, k: nat, q: nat, keyEnd: nat, next: nat, end: nat,
                                     pd: string -> Option<real>)
    requires KeyOrder(node, keys) && DoubleFree(node) && k < |keys|
    requires TextAt(s, a, RestOf(EntryTexts(node, keys, ctx.Indented(), fd), k, Closing(ctx, '}')))
    requires q == a + (if k == 0 then 0 else 2) + |IndentText(ctx.Indented())|
    requires keyEnd == q + |Quoted(keys[k])|
    requires next == keyEnd + 2 + |Printed(node.entries[keys[k]], ctx.Indented(), fd)|
    requires next <= |s| && DictAt(s, next, EntriesUpTo(node, keys, k + 1), pd) ==
      Ok((Dict(EntriesUpTo(node, keys, |keys|)), end))
    ensures DictAt(s, a, EntriesUpTo(node, keys, k), pd) == Ok((Dict(EntriesUpTo(node, keys, |keys|)), end))
    decreases node, 0, |keys| - k, 0
  {
    var inner := ctx.Indented();
    var printed := EntryTextIs(node, keys, inner, fd, k);
    DictLineKey(s, a, k, EntryTexts(node, keys, inner, fd), Closing(ctx, '}'), inner, keys[k], printed, q, keyEnd);
    LoadValue(node, keys, ctx, fd, s, a, k, keyEnd, next, pd);
    EntriesStep(node, keys, k);
    EntryStep(s, a, EntriesUpTo(node, keys, k), keys[k], node.entries[keys[k]], k > 0, q, keyEnd, next, pd,
              Ok((Dict(EntriesUpTo(node, keys, |keys|)), end)));
  }

  /** The value of the k-th entry of a printed dictionary loads back. */
  lemma {:induction false} LoadValue(node: Node, keys: seq<string>, ctx: PrintContext, fd: real -> string, s: string,
                                     a: nat, k: nat, keyEnd: nat, next: nat, pd: string -> Option<real>)
    requires KeyOrder(node, keys) && DoubleFree(node) && k < |keys|
    requires TextAt(s, a, RestOf(EntryTexts(node, keys, ctx.Indented(), fd), k, Closing(ctx, '}')))
    requires keyEnd == a + (if k == 0 then 0 else 2) + |IndentText(ctx.Indented())| + |Quoted(keys[k])|
    requires next == keyEnd + 2 + |Printed(node.entries[keys[k]], ctx.Indented(), fd)|
    ensures keyEnd + 2 <= |s| && NodeAt(s, keyEnd + 2, pd) == Ok((node.entries[keys[k]], next))
    decreases node, 0, 0
  {
    var inner := ctx.Indented();
    var printed := EntryTextIs(node, keys, inner, fd, k);
    DictLineValue(s, a, k, EntryTexts(node, keys, inner, fd), Closing(ctx, '}'), IndentText(inner),
                  Quoted(keys[k]) + ": ", printed, keyEnd + 2);
    LoadPrinted(node.entries[keys[k]], inner, fd, s, keyEnd + 2, pd);
  }

  /** The k-th line of a printed dictionary. */
  lemma EntryTextIs(node: Node, keys: seq<string>, inner: PrintContext, fd: real -> string, k: nat)
    returns (printed: string)
    requires KeyOrder(node, keys) && k < |keys|
    ensures printed == Printed(node.entries[keys[k]], inner, fd)
    ensures EntryTexts(node, keys, inner, fd)[k] == IndentText(inner) + (Quoted(keys[k]) + ": " + printed)
  {
    printed := Printed(node.entries[keys[k]], inner, fd);
  }

  /** The key on the k-th line of a container printed as a dictionary, and what precedes
      it. */
  lemma DictLineKey(s: string, a: nat, k: nat, lines: seq<string>, closing: string, inner: PrintContext, key: string,
                    printed: string, q: nat, keyEnd: nat)
    requires k < |lines| && TextAt(s, a, RestOf(lines, k, closing))
    requires lines[k] == IndentText(inner) + (Quoted(key) + ": " + printed)
    requires q == a + (if k == 0 then 0 else 2) + |IndentText(inner)| && keyEnd == q + |Quoted(key)|
    ensures KeyAt(s, a, k > 0, q, key, keyEnd)
  {
    RestStep(lines, k, closing);
    KeyOnLine(s, a, k > 0, lines[k], inner, key, printed, RestOf(lines, k + 1, closing), q, keyEnd);
  }

  /** The key part of a line, and what precedes it. */
  lemma KeyOnLine(s: string, a: nat, comma: bool, line: string, inner: PrintContext, key: string, printed: string,
                  rest: string, q: nat, keyEnd: nat)
    requires TextAt(s, a, (if comma then ",\n" else []) + line + rest)
    requires line == IndentText(inner) + (Quoted(key) + ": " + printed)
    requires q == a + (if comma then 2 else 0) + |IndentText(inner)| && keyEnd == q + |Quoted(key)|
    ensures KeyAt(s, a, comma, q, key, keyEnd)
  {
    var start := LineAt(s, a, comma, line, IndentText(inner), Quoted(key) + ": " + printed, rest, inner);
    EntryParts(s, q, key, printed);
  }

  /** The value on the k-th line of a container printed as a dictionary, after the key
      part `head`, and what follows it. */
  lemma DictLineValue(s: string, a: nat, k: nat, lines: seq<string>, closing: string, indent: string, head: string,
                      printed: string, v: nat)
    requires k < |lines| && TextAt(s, a, RestOf(lines, k, closing)) && |closing| > 0 && closing[0] == '\n'
    requires lines[k] == indent + (head + printed)
    requires v == a + (if k == 0 then 0 else 2) + |indent| + |head|
    ensures TextAt(s, v, printed) && Ends(s, v + |printed|)
  {
    RestStep(lines, k, closing);
    RestFirst(lines, k + 1, closing);
    ValueAt(s, a, if k == 0 then [] else ",\n", lines[k], indent, head, printed, RestOf(lines, k + 1, closing), v);
  }

  /** The value part of a line, which the text after the line ends. */
  lemma ValueAt(s: string, a: nat, sep: string, line: string, indent: string, head: string, printed: string,
                rest: string, v: nat)
    requires TextAt(s, a, sep + line + rest) && line == indent + (head + printed)
    requires |rest| > 0 && (rest[0] == ',' || rest[0] == '\n')
    requires v == a + |sep| + |indent| + |head|
    ensures TextAt(s, v, printed) && Ends(s, v + |printed|)
  {
    TextAtParts(s, a, sep + line, rest);
    TextAtParts(s, a, sep, line);
    TextAtParts(s, a + |sep|, indent, head + printed);
    TextAtParts(s, a + |sep| + |indent|, head, printed);
    CharAt(s, v + |printed|, rest, 0);
  }

  /** What follows the k-th line of a container printed as a dictionary. */
  lemma DictLineRest(s: string, a: nat, k: nat, lines: seq<string>, closing: string, indent: string, key: string,
                     printed: string, next: nat)
    requires k < |lines| && TextAt(s, a, RestOf(lines, k, closing))
    requires lines[k] == indent + (Quoted(key) + ": " + printed)
    requires next == a + (if k == 0 then 0 else 2) + |indent| + |Quoted(key)| + 2 + |printed|
    ensures TextAt(s, next, RestOf(lines, k + 1, closing))
    ensures next + |RestOf(lines, k + 1, closing)| == a + |RestOf(lines, k, closing)|
  {
    var sep: string := if k == 0 then [] else ",\n";
    RestStep(lines, k, closing);
    LineParts(s, a, sep, lines[k], indent, Quoted(key) + ": " + printed, RestOf(lines, k + 1, closing));
  }

  /** What Print writes, Load reads back: the node, with nothing left over. */
  lemma PrintThenLoad(node: Node, fd: real -> string, pd: string -> Option<real>)
    requires DoubleFree(node)
    ensures NodeAt(Printed(node, DefaultContext, fd), 0, pd) ==
      Ok((node, |Printed(node, DefaultContext, fd)|))
  {
    var s := Printed(node, DefaultContext, fd);
    assert TextAt(s, 0, s) by {
      forall k | 0 <= k < |s|
        ensures s[0 + k] == s[k]
      {
      }
    }
    LoadPrinted(node, DefaultContext, fd, s, 0, pd);
  }
}
