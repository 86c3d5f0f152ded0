/** The JSON loader: a recursive-descent parser over the input text and a cursor into it.
    Each Load method advances the cursor the way the stream would and is proved against a
    function that states the outcome: the node read and the position after it, or the
    message of the json::ParsingError thrown. */
module JsonLoad {
  import opened Wrappers
  import opened Text
  import opened Json

  /** A value read and the position after it, or the message of a ParsingError. */
  type Loaded<T> = Result<(T, nat), string>

  /** Puts `prefix` in front of the text read. */
  function PrependAll(prefix: string, r: Loaded<string>): Loaded<string> {
    match r
    case Ok((t, e)) => Ok((prefix + t, e))
    case Err(m) => Err(m)
  }

  lemma PrependTwice(a: string, b: string, r: Loaded<string>)
    ensures PrependAll(a, PrependAll(b, r)) == PrependAll(a + b, r)
  {
    if r.Ok? { assert a + (b + r.value.0) == (a + b) + r.value.0; }
  }

  lemma PrependNothing(r: Loaded<string>)
    ensures PrependAll([], r) == r
  {
    if r.Ok? { assert [] + r.value.0 == r.value.0; }
  }

  /** The character an escape sequence stands for: only \n \t \r \" and \\ are known. */
  function Unescape(e: char): Option<char> {
    if e == 'n' then Some('\n')
    else if e == 't' then Some('\t')
    else if e == 'r' then Some('\r')
    else if e == '"' then Some('"')
    else if e == '\\' then Some('\\')
    else None
  }

  // ---------------------------------------------------------------------------
  // LoadString

  /** The string that starts at `pos`, just after its opening quote: characters up to the
      first quote that is not escaped, with escapes decoded. The end of the input, a raw
      line break or an unknown escape is an error. */
  function StringAt(s: string, pos: nat): (r: Loaded<string>)
    requires pos <= |s|
    ensures r.Ok? ==> pos < r.value.1 <= |s| && s[r.value.1 - 1] == '"'
    decreases |s| - pos
  {
    if pos == |s| then Err("String parsing error")
    else if s[pos] == '"' then Ok(([], pos + 1))
    else if s[pos] == '\\' then
      if pos + 1 == |s| then Err("String parsing error")
      else if Unescape(s[pos + 1]).None? then Err("Unrecognized escape sequence \\" + [s[pos + 1]])
      else PrependAll([Unescape(s[pos + 1]).value], StringAt(s, pos + 2))
    else if s[pos] == '\n' || s[pos] == '\r' then Err("Unexpected end of line")
    else PrependAll([s[pos]], StringAt(s, pos + 1))
  }

  /** LoadString: the loop over the characters after the opening quote. */
  method LoadString(s: string, pos: nat) returns (r: Loaded<string>)
    requires pos <= |s|
    ensures r == StringAt(s, pos)
  {
    var value := [];
    var p := pos;
    PrependNothing(StringAt(s, pos));
    while true
      invariant pos <= p <= |s|
      invariant StringAt(s, pos) == PrependAll(value, StringAt(s, p))
      decreases |s| - p
    {
      if p == |s| {
        return Err("String parsing error");
      }
      var ch := s[p];
      if ch == '"' {
        assert value + [] == value;
        return Ok((value, p + 1));
      } else if ch == '\\' {
        if p + 1 == |s| {
          return Err("String parsing error");
        }
        var escaped := s[p + 1];
        var decoded: char;
        if escaped == 'n' {
          decoded := '\n';
        } else if escaped == 't' {
          decoded := '\t';
        } else if escaped == 'r' {
          decoded := '\r';
        } else if escaped == '"' {
          decoded := '"';
        } else if escaped == '\\' {
          decoded := '\\';
        } else {
          return Err("Unrecognized escape sequence \\" + [escaped]);
        }
        PrependTwice(value, [decoded], StringAt(s, p + 2));
        value := value + [decoded];
        p := p + 2;
      } else if ch == '\n' || ch == '\r' {
        return Err("Unexpected end of line");
      } else {
        PrependTwice(value, [ch], StringAt(s, p + 1));
        value := value + [ch];
        p := p + 1;
      }
    }
  }

  /** LoadString reads back what PrintString wrote, up to and including the closing
      quote, whatever follows. */
  lemma StringRoundTrip(s: string, pos: nat, v: string)
    requires pos + |Escape(v)| < |s|
    requires s[pos..pos + |Escape(v)| + 1] == Escape(v) + "\""
    ensures StringAt(s, pos) == Ok((v, pos + |Escape(v)| + 1))
  {
    var e := Escape(v);
    var quoted := s[pos..pos + |e| + 1];
    forall k | 0 <= k < |e|
      ensures s[pos + k] == e[k]
    {
      assert s[pos + k] == quoted[k];
    }
    assert s[pos + |e|] == quoted[|e|];
    EscapedAt(s, pos, v);
  }

  /** `t` appears in `s` from `pos` on. */
  predicate TextAt(s: string, pos: nat, t: string) {
    pos + |t| <= |s| && forall k :: 0 <= k < |t| ==> s[pos + k] == t[k]
  }

  /** StringRoundTrip, by induction on the text, with the escaped text located by index. */
  lemma {:induction false} EscapedAt(s: string, pos: nat, v: string)
    requires TextAt(s, pos, Escape(v)) && pos + |Escape(v)| < |s| && s[pos + |Escape(v)|] == '"'
    ensures StringAt(s, pos) == Ok((v, pos + |Escape(v)| + 1))
    decreases |v|
  {
    if |v| == 0 {
      assert Escape(v) == [];
      ClosingQuote(s, pos);
    } else {
      var head, rest := EscapeChar(v[0]), v[1..];
      var end := pos + |Escape(v)| + 1;
      EscapeFirst(v);
      TextSplit(s, pos, Escape(v), head, Escape(rest));
      assert pos + |head| + |Escape(rest)| + 1 == end;
      EscapedAt(s, pos + |head|, rest);
      EscapedStep(s, pos, v[0], rest, end);
      assert [v[0]] + rest == v;
    }
  }

  lemma ClosingQuote(s: string, pos: nat)
    requires pos < |s| && s[pos] == '"'
    ensures StringAt(s, pos) == Ok(([], pos + 1))
  {
  }

  lemma EscapeFirst(v: string)
    requires |v| > 0
    ensures Escape(v) == EscapeChar(v[0]) + Escape(v[1..])
  {
  }

  /** A text located in `s` made of a head and a tail: the head's characters, then the
      tail located right after it. */
  lemma TextSplit(s: string, pos: nat, e: string, head: string, tail: string)
    requires e == head + tail && 0 < |head| && TextAt(s, pos, e)
    ensures s[pos] == head[0] && (|head| == 2 ==> s[pos + 1] == head[1])
    ensures TextAt(s, pos + |head|, tail)
  {
    assert s[pos + 0] == e[0];
    if |head| == 2 {
      assert s[pos + 1] == e[1];
    }
    forall k | 0 <= k < |tail|
      ensures s[pos + |head| + k] == tail[k]
    {
      assert s[pos + (|head| + k)] == e[|head| + k];
    }
  }

  /** Reading one escaped character and going on from after it. */
  lemma EscapedStep(s: string, pos: nat, c: char, rest: string, end: nat)
    requires pos + |EscapeChar(c)| < |s|
    requires s[pos] == EscapeChar(c)[0] && (|EscapeChar(c)| == 2 ==> s[pos + 1] == EscapeChar(c)[1])
    requires StringAt(s, pos + |EscapeChar(c)|) == Ok((rest, end))
    ensures StringAt(s, pos) == Ok(([c] + rest, end))
  {
  }

  /** Without raw tabs, what LoadString accepts is exactly an escaped text and its
      closing quote: reading succeeds with value `v` and end `e` just when the input from
      `pos` to `e` is the escape of `v` followed by a quote. (A raw tab is accepted as
      itself, while PrintString writes it as an escape.) */
  lemma StringLiteral(s: string, pos: nat, v: string, e: nat)
    requires pos <= e <= |s|
    requires forall k :: pos <= k < e ==> s[k] != '\t'
    ensures StringAt(s, pos) == Ok((v, e)) <==> pos < e && s[pos..e] == Escape(v) + "\""
  {
    if StringAt(s, pos) == Ok((v, e)) {
      StringLiteralOf(s, pos);
    }
    if pos < e && s[pos..e] == Escape(v) + "\"" {
      StringRoundTrip(s, pos, v);
    }
  }

  /** The value read and the text it was read from determine each other. */
  lemma {:induction false} StringLiteralOf(s: string, pos: nat)
    requires pos <= |s| && StringAt(s, pos).Ok?
    requires forall k :: pos <= k < StringAt(s, pos).value.1 ==> s[k] != '\t'
    ensures s[pos..StringAt(s, pos).value.1] == Escape(StringAt(s, pos).value.0) + "\""
    decreases |s| - pos
  {
    if s[pos] == '"' {
      assert Escape([]) == [];
    } else if s[pos] == '\\' {
      StringLiteralOf(s, pos + 2);
      LiteralStep(s, pos, 2, Unescape(s[pos + 1]).value, StringAt(s, pos + 2).value.0, StringAt(s, pos).value.1);
    } else {
      StringLiteralOf(s, pos + 1);
      LiteralStep(s, pos, 1, s[pos], StringAt(s, pos + 1).value.0, StringAt(s, pos).value.1);
    }
  }

  /** One character's escape in front of an escaped literal. */
  lemma LiteralStep(s: string, pos: nat, h: nat, c: char, rest: string, end: nat)
    requires pos + h <= end <= |s| && s[pos..pos + h] == EscapeChar(c)
    requires s[pos + h..end] == Escape(rest) + "\""
    ensures s[pos..end] == Escape([c] + rest) + "\""
  {
    assert ([c] + rest)[0] == c && ([c] + rest)[1..] == rest;
    assert s[pos..end] == s[pos..pos + h] + s[pos + h..end];
  }

  // ---------------------------------------------------------------------------
  // LoadNull, LoadBool, LoadNumber

  /** The end of the run of characters in `span` that starts at `p`. */
  function SpanEnd(s: string, p: nat, span: char -> bool): (r: nat)
    requires p <= |s|
    ensures p <= r <= |s| && (r < |s| ==> !span(s[r]))
    decreases |s| - p
  {
    if p == |s| || !span(s[p]) then p else SpanEnd(s, p + 1, span)
  }

  /** SpanEnd is determined by what it passes over and where it stops. */
  lemma {:induction false} SpanEndIs(s: string, p: nat, span: char -> bool, r: nat)
    requires p <= r <= |s|
    requires forall k :: p <= k < r ==> span(s[k])
    requires r < |s| ==> !span(s[r])
    ensures SpanEnd(s, p, span) == r
    decreases r - p
  {
    if p < r { SpanEndIs(s, p + 1, span, r); }
  }

  /** The word LoadNull and LoadBool read: the letters from `p` on. A letter right after
      the word is part of it, and so the word is followed by the end of the input or by a
      character that is not a letter; it must not be a digit either. */
  function Word(s: string, p: nat): (r: (string, nat))
    requires p <= |s|
    ensures p <= r.1 <= |s| && r.0 == s[p..r.1]
  {
    var e := SpanEnd(s, p, IsAlpha);
    (s[p..e], e)
  }

  predicate EndsWord(s: string, e: nat) {
    e >= |s| || !IsAlnum(s[e])
  }

  function NullAt(s: string, p: nat): (r: Loaded<Node>)
    requires p <= |s|
  {
    var (value, e) := Word(s, p);
    if value == "null" && EndsWord(s, e) then Ok((Null, e))
    else Err("Invalid null value: " + value)
  }

  function BoolAt(s: string, p: nat): (r: Loaded<Node>)
    requires p <= |s|
  {
    var (value, e) := Word(s, p);
    if value == "true" && EndsWord(s, e) then Ok((Bool(true), e))
    else if value == "false" && EndsWord(s, e) then Ok((Bool(false), e))
    else Err("Invalid boolean value: " + value)
  }

  /** The input from `p` is `word` followed by the end of the input or by a character
      that is neither a letter nor a digit. */
  predicate IsWordAt(s: string, p: nat, word: string) {
    p + |word| <= |s| && s[p..p + |word|] == word && EndsWord(s, p + |word|)
  }

  /** A literal is read exactly when it stands at `p` as a whole word. */
  lemma LiteralSpec(s: string, p: nat, word: string)
    requires p <= |s| && word in {"null", "true", "false"}
    ensures (Word(s, p).0 == word && EndsWord(s, Word(s, p).1)) <==> IsWordAt(s, p, word)
  {
    if IsWordAt(s, p, word) {
      forall k | p <= k < p + |word| ensures IsAlpha(s[k]) {
        assert s[k] == word[k - p];
      }
      SpanEndIs(s, p, IsAlpha, p + |word|);
    }
  }

  /** LoadNull accepts exactly `null` as a whole word. */
  lemma NullSpec(s: string, p: nat)
    requires p <= |s|
    ensures NullAt(s, p).Ok? <==> IsWordAt(s, p, "null")
    ensures NullAt(s, p).Ok? ==> NullAt(s, p).value == (Null, p + 4)
  {
    LiteralSpec(s, p, "null");
  }

  /** LoadBool accepts exactly `true` and `false` as whole words, and reads each as its
      value. */
  lemma BoolSpec(s: string, p: nat)
    requires p <= |s|
    ensures BoolAt(s, p).Ok? <==> IsWordAt(s, p, "true") || IsWordAt(s, p, "false")
    ensures IsWordAt(s, p, "true") ==> BoolAt(s, p) == Ok((Bool(true), p + 4))
    ensures IsWordAt(s, p, "false") ==> BoolAt(s, p) == Ok((Bool(false), p + 5))
  {
    LiteralSpec(s, p, "true");
    LiteralSpec(s, p, "false");
  }

  /** LoadNull and LoadBool: the loop reading letters. */
  method ReadWord(s: string, p: nat) returns (value: string, e: nat)
    requires p <= |s|
    ensures (value, e) == Word(s, p)
  {
    value := [];
    e := p;
    while e < |s| && IsAlpha(s[e])
      invariant p <= e <= |s| && value == s[p..e]
      invariant SpanEnd(s, e, IsAlpha) == SpanEnd(s, p, IsAlpha)
    {
      assert s[p..e + 1] == s[p..e] + [s[e]];
      value := value + [s[e]];
      e := e + 1;
    }
  }

  method LoadNull(s: string, p: nat) returns (r: Loaded<Node>)
    requires p <= |s|
    ensures r == NullAt(s, p)
  {
    var value, e := ReadWord(s, p);
    if value == "null" && (e == |s| || !IsAlnum(s[e])) {
      return Ok((Null, e));
    }
    return Err("Invalid null value: " + value);
  }

  method LoadBool(s: string, p: nat) returns (r: Loaded<Node>)
    requires p <= |s|
    ensures r == BoolAt(s, p)
  {
    var value, e := ReadWord(s, p);
    if value == "true" {
      if e == |s| || !IsAlnum(s[e]) {
        return Ok((Bool(true), e));
      }
    } else if value == "false" {
      if e == |s| || !IsAlnum(s[e]) {
        return Ok((Bool(false), e));
      }
    }
    return Err("Invalid boolean value: " + value);
  }

  /** The characters LoadNumber collects. */
  predicate IsNumberChar(c: char) {
    IsDigit(c) || c == '-' || c == '.' || c == 'e' || c == 'E' || c == '+'
  }

  /** The numeral from `p` is an int when std::stoi reads all of it; otherwise it is a
      double, read by `parseDouble` (std::stod). Either conversion failing, an int out of
      range included, is a parsing error. */
  function NumberAt(s: string, p: nat, parseDouble: string -> Option<real>): (r: Loaded<Node>)
    requires p <= |s|
    ensures r.Ok? ==> p < r.value.1 <= |s|
  {
    var e := SpanEnd(s, p, IsNumberChar);
    var numeral := s[p..e];
    match ParseInt(numeral)
    case None => Err("Number parsing error")
    case Some((n, consumed)) =>
      if consumed == |numeral| then Ok((Int(n), e))
      else if parseDouble(numeral).None? then Err("Number parsing error")
      else Ok((Double(parseDouble(numeral).value), e))
  }

  method LoadNumber(s: string, p: nat, parseDouble: string -> Option<real>) returns (r: Loaded<Node>)
    requires p <= |s|
    ensures r == NumberAt(s, p, parseDouble)
  {
    var numeral := [];
    var e := p;
    while e < |s| && IsNumberChar(s[e])
      invariant p <= e <= |s| && numeral == s[p..e]
      invariant SpanEnd(s, e, IsNumberChar) == SpanEnd(s, p, IsNumberChar)
    {
      assert s[p..e + 1] == s[p..e] + [s[e]];
      numeral := numeral + [s[e]];
      e := e + 1;
    }
    var parsed := ParseInt(numeral);
    if parsed.None? {
      return Err("Number parsing error");
    }
    if parsed.value.1 == |numeral| {
      return Ok((Int(parsed.value.0), e));
    }
    var d := parseDouble(numeral);
    if d.None? {
      return Err("Number parsing error");
    }
    return Ok((Double(d.value), e));
  }

  /** An int that operator<< wrote reads back as that int, when what follows cannot
      continue a numeral. */
  lemma IntRoundTripAt(s: string, p: nat, n: Int32, parseDouble: string -> Option<real>)
    requires p + |IntToString(n)| <= |s| && s[p..p + |IntToString(n)|] == IntToString(n)
    requires p + |IntToString(n)| == |s| || !IsNumberChar(s[p + |IntToString(n)|])
    ensures NumberAt(s, p, parseDouble) == Ok((Int(n), p + |IntToString(n)|))
  {
    var t := IntToString(n);
    NumeralChars(s, p, n);
    SpanEndIs(s, p, IsNumberChar, p + |t|);
    IntParsesBack(n);
    assert s[p..p + |t|] == t;
  }

  /** The decimal text of an int, alone, reads back whole as that int. */
  lemma IntParsesBack(n: Int32)
    ensures ParseInt(IntToString(n)) == Some((n, |IntToString(n)|))
  {
    IntRoundTrip(n, []);
    assert IntToString(n) + [] == IntToString(n);
  }

  lemma NumeralChars(s: string, p: nat, n: Int32)
    requires p + |IntToString(n)| <= |s| && s[p..p + |IntToString(n)|] == IntToString(n)
    ensures forall k :: p <= k < p + |IntToString(n)| ==> IsNumberChar(s[k])
  {
    var t := IntToString(n);
    forall k | p <= k < p + |t| ensures IsNumberChar(s[k]) {
      assert s[k] == t[k - p];
      IntToStringChars(n, k - p);
    }
  }

  /** operator<< on an int writes a minus sign and digits. */
  lemma IntToStringChars(n: int, k: nat)
    requires k < |IntToString(n)|
    ensures IsNumberChar(IntToString(n)[k])
  {
    if n < 0 && k > 0 {
      assert IntToString(n)[k] == NatToString(-n)[k - 1];
    }
  }

  // ---------------------------------------------------------------------------
  // LoadNode, LoadArray, LoadDict

  /** The position after the next character that is not white space (`input >> c`), or
      the end of the input when there is none. */
  function After(s: string, p: nat): (r: nat)
    requires p <= |s|
    ensures p <= r <= |s| && (r < |s| ==> p < r)
  {
    var q := SkipSpace(s, p);
    if q < |s| then q + 1 else |s|
  }

  /** The node at the first character that is not white space: `[` an array, `{` a
      dictionary, `"` a string, `n` null, `t` or `f` a bool, `-` or a digit a number;
      anything else is an error. The end of the input there is an error too (reading a
      character at the end of the input leaves it undefined in the source). */
  function NodeAt(s: string, pos: nat, parseDouble: string -> Option<real>): (r: Loaded<Node>)
    requires pos <= |s|
    ensures r.Ok? ==> pos < r.value.1 <= |s|
    decreases |s| - pos, 1
  {
    var p := SkipSpace(s, pos);
    if p == |s| then Err("Unexpected end of input")
    else
      var c := s[p];
      if c == '[' then ArrayAt(s, p + 1, [], parseDouble)
      else if c == '{' then DictAt(s, p + 1, map[], parseDouble)
      else if c == '"' then
        match StringAt(s, p + 1)
        case Ok((v, e)) => Ok((Str(v), e))
        case Err(m) => Err(m)
      else if c == 'n' then NullAt(s, p)
      else if c == 't' || c == 'f' then BoolAt(s, p)
      else if c == '-' || IsDigit(c) then NumberAt(s, p, parseDouble)
      else Err("Unexpected character: " + [c])
  }

  /** The rest of an array whose elements so far are `acc`: up to the next `]`; a comma
      before an element is skipped, and elements need not be separated by one. The end
      of the input before the `]` is an error. */
  function ArrayAt(s: string, pos: nat, acc: seq<Node>, parseDouble: string -> Option<real>): (r: Loaded<Node>)
    requires pos <= |s|
    ensures r.Ok? ==> pos < r.value.1 <= |s| && s[r.value.1 - 1] == ']' && r.value.0.Array?
    decreases |s| - pos, 2
  {
    var p := SkipSpace(s, pos);
    if p == |s| then Err("Array parsing error")
    else if s[p] == ']' then Ok((Array(acc), p + 1))
    else
      var from := if s[p] == ',' then p + 1 else p;
      match NodeAt(s, from, parseDouble)
      case Err(m) => Err(m)
      case Ok((node, q)) => ArrayAt(s, q, acc + [node], parseDouble)
  }

  /** The rest of a dictionary whose entries so far are `acc`: up to the next `}`. Each
      entry is one character that is skipped unchecked (a second one when the first is a
      comma), a string key, one more skipped character (the colon) and a node; a key
      already present keeps its first value (std::map::insert). The end of the input
      before the `}` is an error. */
  function DictAt(s: string, pos: nat, acc: map<string, Node>, parseDouble: string -> Option<real>): (r: Loaded<Node>)
    requires pos <= |s|
    ensures r.Ok? ==> pos < r.value.1 <= |s| && s[r.value.1 - 1] == '}' && r.value.0.Dict?
    decreases |s| - pos, 2
  {
    var p := SkipSpace(s, pos);
    if p == |s| then Err("Dict parsing error")
    else if s[p] == '}' then Ok((Dict(acc), p + 1))
    else EntryAt(s, p, acc, parseDouble)
  }

  /** One entry of a dictionary, from the character at `p` that is not a `}`, and the
      rest of the dictionary after it. */
  function EntryAt(s: string, p: nat, acc: map<string, Node>, parseDouble: string -> Option<real>): (r: Loaded<Node>)
    requires p < |s|
    ensures r.Ok? ==> p < r.value.1 <= |s| && s[r.value.1 - 1] == '}' && r.value.0.Dict?
    decreases |s| - p, 1
  {
    var keyAt := if s[p] == ',' then After(s, p + 1) else p + 1;
    match StringAt(s, keyAt)
    case Err(m) => Err(m)
    case Ok((key, k)) =>
      match NodeAt(s, After(s, k), parseDouble)
      case Err(m) => Err(m)
      case Ok((node, q)) => DictAt(s, q, if key in acc then acc else acc[key := node], parseDouble)
  }

  /** LoadNode. */
  method LoadNode(s: string, pos: nat, parseDouble: string -> Option<real>) returns (r: Loaded<Node>)
    requires pos <= |s|
    ensures r == NodeAt(s, pos, parseDouble)
    decreases |s| - pos, 1
  {
    var p := SkipSpace(s, pos);
    if p == |s| {
      return Err("Unexpected end of input");
    }
    var c := s[p];
    if c == '[' {
      r := LoadArray(s, p + 1, parseDouble);
    } else if c == '{' {
      r := LoadDict(s, p + 1, parseDouble);
    } else if c == '"' {
      var v := LoadString(s, p + 1);
      if v.Ok? {
        r := Ok((Str(v.value.0), v.value.1));
      } else {
        r := Err(v.error);
      }
    } else if c == 'n' {
      r := LoadNull(s, p);
    } else if c == 't' || c == 'f' {
      r := LoadBool(s, p);
    } else if c == '-' || IsDigit(c) {
      r := LoadNumber(s, p, parseDouble);
    } else {
      r := Err("Unexpected character: " + [c]);
    }
  }

  /** LoadArray: the loop that reads elements until the closing bracket. */
  method LoadArray(s: string, pos: nat, parseDouble: string -> Option<real>) returns (r: Loaded<Node>)
    requires pos <= |s|
    ensures r == ArrayAt(s, pos, [], parseDouble)
    decreases |s| - pos, 2
  {
    var result := [];
    var p := pos;
    while true
      invariant pos <= p <= |s|
      invariant ArrayAt(s, p, result, parseDouble) == ArrayAt(s, pos, [], parseDouble)
      decreases |s| - p
    {
      var c := SkipSpace(s, p);
      if c == |s| {
        return Err("Array parsing error");
      }
      if s[c] == ']' {
        return Ok((Array(result), c + 1));
      }
      var from := if s[c] == ',' then c + 1 else c;
      var node := LoadNode(s, from, parseDouble);
      if node.Err? {
        return Err(node.error);
      }
      result := result + [node.value.0];
      p := node.value.1;
    }
  }

  /** LoadDict: the loop that reads entries until the closing brace. */
  method LoadDict(s: string, pos: nat, parseDouble: string -> Option<real>) returns (r: Loaded<Node>)
    requires pos <= |s|
    ensures r == DictAt(s, pos, map[], parseDouble)
    decreases |s| - pos, 2
  {
    var result := map[];
    var p := pos;
    while true
      invariant pos <= p <= |s|
      invariant DictAt(s, p, result, parseDouble) == DictAt(s, pos, map[], parseDouble)
      decreases |s| - p
    {
      var c := SkipSpace(s, p);
      if c == |s| {
        return Err("Dict parsing error");
      }
      if s[c] == '}' {
        return Ok((Dict(result), c + 1));
      }
      var keyAt := if s[c] == ',' then After(s, c + 1) else c + 1;
      var key := LoadString(s, keyAt);
      if key.Err? {
        return Err(key.error);
      }
      var node := LoadNode(s, After(s, key.value.1), parseDouble);
      if node.Err? {
        return Err(node.error);
      }
      if key.value.0 !in result {
        result := result[key.value.0 := node.value.0];
      }
      p := node.value.1;
    }
  }

  /** json::Load: the document's root node read from the whole input. */
  method Load(s: string, parseDouble: string -> Option<real>) returns (r: Result<Node, string>)
    ensures r.Ok? <==> NodeAt(s, 0, parseDouble).Ok?
    ensures r.Ok? ==> r.value == NodeAt(s, 0, parseDouble).value.0
  {
    var loaded := LoadNode(s, 0, parseDouble);
    if loaded.Ok? {
      r := Ok(loaded.value.0);
    } else {
      r := Err(loaded.error);
    }
  }
}
