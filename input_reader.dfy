/** The line-oriented input reader: it splits "Stop" and "Bus" lines into their parts,
    keeps the commands in input order, and applies them to a catalogue. */
module InputReader {
  import opened Wrappers
  import opened Text
  import opened Domain
  import opened Catalogue

  // ---------------------------------------------------------------------------
  // Trim

  /** Trim: the text between the first and the last non-blank character; empty when the
      text is all blanks, which is when the first non-blank position is not before the
      end of the last one (TrimEmpty). Only ' ' counts as blank. */
  function Trim(s: string): (r: string)
    ensures |r| > 0 ==> r[0] != ' ' && r[|r| - 1] != ' '
  {
    var start := FindNot(s, ' ', 0);
    var end := EndNot(s, ' ');
    if start >= end then [] else s[start..end]
  }

  /** Text whose ends are not blank: what Trim leaves. */
  predicate Trimmed(t: string) {
    t == [] || (t[0] != ' ' && t[|t| - 1] != ' ')
  }

  /** Trim undoes padding with blanks on either side. */
  lemma TrimPadded(a: nat, t: string, b: nat)
    requires Trimmed(t)
    ensures Trim(Spaces(a) + t + Spaces(b)) == t
  {
    var s := Spaces(a) + t + Spaces(b);
    if t == [] {
      assert AllAre(s, ' ') by {
        forall k | 0 <= k < |s| ensures s[k] == ' ' {
          if k < a { assert s[k] == Spaces(a)[k]; } else { assert s[k] == Spaces(b)[k - a]; }
        }
      }
      TrimEmpty(s);
    } else {
      PaddedStart(a, t, b);
      PaddedEnd(a, t, b);
      assert s[a..a + |t|] == t;
    }
  }

  lemma PaddedStart(a: nat, t: string, b: nat)
    requires |t| > 0 && t[0] != ' '
    ensures FindNot(Spaces(a) + t + Spaces(b), ' ', 0) == a
  {
    var s := Spaces(a) + t + Spaces(b);
    assert s[a] == t[0];
    forall k | 0 <= k < a ensures s[k] == ' ' {
      assert s[k] == Spaces(a)[k];
    }
    FindNotIs(s, ' ', 0, a);
  }

  lemma PaddedEnd(a: nat, t: string, b: nat)
    requires |t| > 0 && t[|t| - 1] != ' '
    ensures EndNot(Spaces(a) + t + Spaces(b), ' ') == a + |t|
  {
    var s := Spaces(a) + t + Spaces(b);
    assert s[a + |t| - 1] == t[|t| - 1];
    forall k | a + |t| <= k < |s| ensures s[k] == ' ' {
      assert s[k] == Spaces(b)[k - a - |t|];
    }
    EndNotIs(s, ' ', a + |t|);
  }

  /** Every text is its trimmed part padded with blanks on either side. */
  lemma TrimPads(s: string)
    ensures exists a: nat, b: nat :: s == Spaces(a) + Trim(s) + Spaces(b)
  {
    var start := FindNot(s, ' ', 0);
    FindNotSkips(s, ' ', 0);
    EndNotSkips(s, ' ');
    if start == |s| {
      assert s == Spaces(|s|) + [] + Spaces(0);
    } else {
      var end := EndNot(s, ' ');
      FindNotBeforeEnd(s, ' ');
      assert s[..start] == Spaces(start);
      assert s[end..] == Spaces(|s| - end);
      assert s == s[..start] + s[start..end] + s[end..];
    }
  }

  /** Trim leaves trimmed text alone. */
  lemma TrimTrimmed(x: string)
    requires Trimmed(x)
    ensures Trim(x) == x
  {
    assert Spaces(0) + x + Spaces(0) == x;
    TrimPadded(0, x, 0);
  }

  lemma TrimIdempotent(s: string)
    ensures Trim(Trim(s)) == Trim(s)
  {
    TrimTrimmed(Trim(s));
  }

  /** Trim leaves nothing exactly when the text is all blanks. */
  lemma TrimEmpty(s: string)
    ensures Trim(s) == [] <==> AllAre(s, ' ')
  {
    FindNotSkips(s, ' ', 0);
    if FindNot(s, ' ', 0) < |s| {
      FindNotBeforeEnd(s, ' ');
      assert s[FindNot(s, ' ', 0)] != ' ';
    }
  }

  /** Trim keeps characters and adds none. */
  lemma TrimWithin(s: string, c: char)
    requires c in Trim(s)
    ensures c in s
  {
  }

  // ---------------------------------------------------------------------------
  // Split

  /** A piece Split can return for the delimiter `delim`. */
  predicate Piece(t: string, delim: char) {
    |t| > 0 && t[0] != ' ' && t[|t| - 1] != ' ' && delim !in t
  }

  /** What the loop of Split collects from position `pos` on: skip blanks, then go on as
      PiecesAt says. */
  function Pieces(s: string, delim: char, pos: nat): seq<string>
    decreases if pos <= |s| then |s| - pos else 0, 1
  {
    PiecesAt(s, delim, FindNot(s, ' ', pos))
  }

  /** From a non-blank position `p`: take the text up to the next delimiter (or the end),
      keep it trimmed if it is not empty, and go on after the delimiter. As `p` is not
      blank, trimming only drops the blanks before the delimiter (PieceTrim). */
  function PiecesAt(s: string, delim: char, p: nat): seq<string>
    requires p <= |s| && (p < |s| ==> s[p] != ' ')
    decreases |s| - p, 0
  {
    if p == |s| then []
    else
      var d := Find(s, delim, p);
      var piece := if d == p then [] else (EndNotPast(s, ' ', p, d); s[p..EndNotBefore(s, ' ', d)]);
      (if piece == [] then [] else [piece]) + Pieces(s, delim, d + 1)
  }

  /** The text from a non-blank position to `d`, trimmed, is the text up to its last
      non-blank character. */
  lemma PieceTrim(s: string, p: nat, d: nat)
    requires p < d <= |s| && s[p] != ' '
    ensures p < EndNotBefore(s, ' ', d)
    ensures Trim(s[p..d]) == s[p..EndNotBefore(s, ' ', d)]
  {
    EndNotPast(s, ' ', p, d);
    SliceStart(s, p, d);
    SliceEnd(s, p, d);
    assert s[p..d][0..EndNotBefore(s, ' ', d) - p] == s[p..EndNotBefore(s, ' ', d)];
  }

  lemma SliceStart(s: string, p: nat, d: nat)
    requires p < d <= |s| && s[p] != ' '
    ensures FindNot(s[p..d], ' ', 0) == 0
  {
    assert s[p..d][0] == s[p];
    FindNotIs(s[p..d], ' ', 0, 0);
  }

  lemma SliceEnd(s: string, p: nat, d: nat)
    requires p < d <= |s| && s[p] != ' '
    ensures p < EndNotBefore(s, ' ', d)
    ensures EndNot(s[p..d], ' ') == EndNotBefore(s, ' ', d) - p
  {
    var t := s[p..d];
    var e := EndNotBefore(s, ' ', d);
    EndNotPast(s, ' ', p, d);
    EndNotBeforeSkips(s, ' ', d);
    assert t[e - p - 1] == s[e - 1];
    forall k | e - p <= k < |t| ensures t[k] == ' ' {
      assert t[k] == s[p + k];
    }
    EndNotIs(t, ' ', e - p);
  }

  /** Split: the loop of the source, with `pos` moved by find_first_not_of. */
  method Split(s: string, delim: char) returns (result: seq<string>)
    ensures result == Pieces(s, delim, 0)
  {
    result := [];
    var pos := FindNot(s, ' ', 0);
    while pos < |s|
      invariant pos <= |s| && (pos < |s| ==> s[pos] != ' ')
      invariant result + PiecesAt(s, delim, pos) == Pieces(s, delim, 0)
      decreases |s| - pos
    {
      var delimPos := Find(s, delim, pos);
      var piece := Trim(s[pos..delimPos]);
      if delimPos > pos { PieceTrim(s, pos, delimPos); }
      ghost var rest := Pieces(s, delim, delimPos + 1);
      if piece != [] {
        assert PiecesAt(s, delim, pos) == [piece] + rest;
        assert (result + [piece]) + rest == result + ([piece] + rest);
        result := result + [piece];
      } else {
        assert PiecesAt(s, delim, pos) == rest;
      }
      pos := FindNot(s, ' ', delimPos + 1);
      assert PiecesAt(s, delim, pos) == rest;
    }
  }

  /** Every piece is non-empty, has no blank at either end and holds no delimiter. */
  lemma {:induction false} PiecesArePieces(s: string, delim: char, pos: nat)
    ensures forall k :: 0 <= k < |Pieces(s, delim, pos)| ==> Piece(Pieces(s, delim, pos)[k], delim)
    decreases |s| - pos
  {
    var p := FindNot(s, ' ', pos);
    if p < |s| {
      var d := Find(s, delim, p);
      PiecesArePieces(s, delim, d + 1);
      if d > p {
        var e := EndNotBefore(s, ' ', d);
        EndNotPast(s, ' ', p, d);
        FindSkips(s, delim, p);
        assert Piece(s[p..e], delim) by {
          assert s[p..e][0] == s[p] && s[p..e][e - p - 1] == s[e - 1];
          forall k | 0 <= k < e - p ensures s[p..e][k] != delim {
            assert s[p..e][k] == s[p + k];
          }
        }
        assert Pieces(s, delim, pos) == [s[p..e]] + Pieces(s, delim, d + 1);
      } else {
        assert Pieces(s, delim, pos) == Pieces(s, delim, d + 1);
      }
    }
  }

  /** The pieces joined back with the delimiter between them. */
  function Join(xs: seq<string>, delim: char): string
  {
    if |xs| == 0 then [] else if |xs| == 1 then xs[0] else xs[0] + [delim] + Join(xs[1..], delim)
  }

  /** Split undoes Join for pieces that are not empty, not padded and free of the
      delimiter. */
  lemma SplitJoin(xs: seq<string>, delim: char)
    requires forall k :: 0 <= k < |xs| ==> Piece(xs[k], delim)
    ensures Pieces(Join(xs, delim), delim, 0) == xs
  {
    JoinLaysOut(Join(xs, delim), delim, 0, xs);
    PiecesOfJoin(Join(xs, delim), delim, 0, xs);
  }

  /** The pieces `xs` lie in `s` from `pos` on, one delimiter between each two, up to the
      end of `s`, and each is a piece Split can return. */
  predicate JoinedAt(s: string, delim: char, pos: nat, xs: seq<string>)
    decreases |xs|
  {
    if |xs| == 0 then pos == |s|
    else
      Piece(xs[0], delim) && pos + |xs[0]| <= |s| &&
      (forall k :: 0 <= k < |xs[0]| ==> s[pos + k] == xs[0][k]) &&
      if |xs| == 1 then pos + |xs[0]| == |s|
      else pos + |xs[0]| < |s| && s[pos + |xs[0]|] == delim && JoinedAt(s, delim, pos + |xs[0]| + 1, xs[1..])
  }

  /** A text that ends in the join of `xs` holds them as JoinedAt says. */
  lemma {:induction false} JoinLaysOut(s: string, delim: char, pos: nat, xs: seq<string>)
    requires pos <= |s| && s[pos..] == Join(xs, delim)
    requires forall k :: 0 <= k < |xs| ==> Piece(xs[k], delim)
    ensures JoinedAt(s, delim, pos, xs)
    decreases |xs|
  {
    if |xs| > 0 {
      assert Piece(xs[0], delim);
      forall k | 0 <= k < |xs[0]| ensures s[pos + k] == xs[0][k] {
        assert s[pos + k] == s[pos..][k];
      }
      if |xs| > 1 {
        JoinTail(s, delim, pos, xs);
        JoinLaysOut(s, delim, pos + |xs[0]| + 1, xs[1..]);
      }
    }
  }

  /** After the first piece of a joined text come the delimiter and the join of the rest. */
  lemma JoinTail(s: string, delim: char, pos: nat, xs: seq<string>)
    requires pos <= |s| && s[pos..] == Join(xs, delim) && |xs| > 1
    ensures pos + |xs[0]| < |s| && s[pos + |xs[0]|] == delim
    ensures s[pos + |xs[0]| + 1..] == Join(xs[1..], delim)
  {
    var n := pos + |xs[0]|;
    assert s[pos..] == xs[0] + ([delim] + Join(xs[1..], delim));
    assert s[n] == s[pos..][|xs[0]|];
    assert s[n + 1..] == s[pos..][|xs[0]| + 1..];
  }

  /** Split reads back the pieces laid out from `pos` on. */
  lemma {:induction false} PiecesOfJoin(s: string, delim: char, pos: nat, xs: seq<string>)
    requires JoinedAt(s, delim, pos, xs)
    ensures Pieces(s, delim, pos) == xs
    decreases |xs|, 1
  {
    if |xs| == 0 {
      PiecesEnd(s, delim, pos);
    } else {
      JoinHead(s, delim, pos, xs);
      PiecesOfJoinRest(s, delim, pos, xs);
    }
  }

  /** The step of PiecesOfJoin once the first piece has been found where it lies. */
  lemma {:induction false} PiecesOfJoinRest(s: string, delim: char, pos: nat, xs: seq<string>)
    requires |xs| > 0 && pos < pos + |xs[0]| <= |s|
    requires FindNot(s, ' ', pos) == pos && Find(s, delim, pos) == pos + |xs[0]|
    requires EndNotBefore(s, ' ', pos + |xs[0]|) == pos + |xs[0]| && s[pos..pos + |xs[0]|] == xs[0]
    requires |xs| == 1 ==> pos + |xs[0]| + 1 > |s|
    requires |xs| > 1 ==> JoinedAt(s, delim, pos + |xs[0]| + 1, xs[1..])
    ensures Pieces(s, delim, pos) == xs
    decreases |xs|, 0
  {
    PiecesStep(s, delim, pos, pos + |xs[0]|, xs[0]);
    if |xs| == 1 {
      PiecesEnd(s, delim, pos + |xs[0]| + 1);
    } else {
      PiecesOfJoin(s, delim, pos + |xs[0]| + 1, xs[1..]);
    }
    assert [xs[0]] + xs[1..] == xs;
  }

  /** Nothing is left to split at the end of the text. */
  lemma PiecesEnd(s: string, delim: char, pos: nat)
    requires pos >= |s|
    ensures Pieces(s, delim, pos) == []
  {
  }

  /** Where Split finds the first of the laid-out pieces: it starts there, runs up to the
      next delimiter and ends in a non-blank; the rest are laid out after that delimiter. */
  lemma JoinHead(s: string, delim: char, pos: nat, xs: seq<string>)
    requires JoinedAt(s, delim, pos, xs) && |xs| > 0
    ensures pos < pos + |xs[0]| <= |s|
    ensures FindNot(s, ' ', pos) == pos && Find(s, delim, pos) == pos + |xs[0]|
    ensures EndNotBefore(s, ' ', pos + |xs[0]|) == pos + |xs[0]| && s[pos..pos + |xs[0]|] == xs[0]
    ensures |xs| == 1 ==> pos + |xs[0]| + 1 > |s|
    ensures |xs| > 1 ==> JoinedAt(s, delim, pos + |xs[0]| + 1, xs[1..])
  {
    var x := xs[0];
    assert s[pos..pos + |x|] == x;
    assert FindNot(s, ' ', pos) == pos by {
      assert s[pos] == x[0];
      FindNotIs(s, ' ', pos, pos);
    }
    assert Find(s, delim, pos) == pos + |x| by {
      forall k | pos <= k < pos + |x| ensures s[k] != delim {
        assert s[k] == x[k - pos];
      }
      FindIs(s, delim, pos, pos + |x|);
    }
    assert s[pos + |x| - 1] == x[|x| - 1];
  }

  /** One step of Split from a non-blank position, when the text up to the delimiter ends
      in a non-blank. */
  lemma PiecesStep(s: string, delim: char, pos: nat, d: nat, piece: string)
    requires pos < d <= |s| && FindNot(s, ' ', pos) == pos && Find(s, delim, pos) == d
    requires EndNotBefore(s, ' ', d) == d && s[pos..d] == piece
    ensures Pieces(s, delim, pos) == [piece] + Pieces(s, delim, d + 1)
  {
  }

  // ---------------------------------------------------------------------------
  // ParseRoute

  function Reversed(s: seq<string>): (r: seq<string>)
    ensures |r| == |s|
  {
    seq(|s|, k requires 0 <= k < |s| => s[|s| - 1 - k])
  }

  /** ParseRoute: a route written with '>' is split on '>'; any other is split on '-' and
      travelled back to its first stop. A route with no names gives none (the source forms
      an iterator before the first element there). */
  function ParseRoute(route: string): seq<string>
  {
    if Find(route, '>', 0) < |route| then Pieces(route, '>', 0)
    else
      var stops := Pieces(route, '-', 0);
      if |stops| == 0 then [] else stops + Reversed(stops[..|stops| - 1])
  }

  /** A ring route is exactly its pieces. A back-and-forth route with n names lists
      2n - 1 stops: the names in order, then back again, which reads the same both ways
      and turns at the last name. */
  lemma ParseRouteShape(route: string)
    ensures '>' in route ==> ParseRoute(route) == Pieces(route, '>', 0)
    ensures '>' !in route ==>
      var stops := Pieces(route, '-', 0);
      var r := ParseRoute(route);
      (|stops| == 0 ==> r == []) &&
      (|stops| > 0 ==>
        |r| == 2 * |stops| - 1 && r[..|stops|] == stops &&
        forall k :: 0 <= k < |r| ==> r[k] == r[|r| - 1 - k])
  {
    if '>' in route {
      var k :| 0 <= k < |route| && route[k] == '>';
      FindSkips(route, '>', 0);
      assert Find(route, '>', 0) <= k;
    } else {
      var stops := Pieces(route, '-', 0);
      var r := ParseRoute(route);
      if |stops| > 0 {
        var n := |stops|;
        assert r == stops + Reversed(stops[..n - 1]);
        forall k | 0 <= k < |r| ensures r[k] == r[|r| - 1 - k] {
          if k < n - 1 {
            assert r[|r| - 1 - k] == Reversed(stops[..n - 1])[n - 2 - k];
          } else if k >= n {
            assert r[k] == Reversed(stops[..n - 1])[k - n];
          }
        }
      }
    }
  }

  // ---------------------------------------------------------------------------
  // ParseCommandDescription

  /** A line split into its command word, the id after it and the text after the colon. */
  datatype CommandDescription = CommandDescription(command: string, id: string, description: string)

  /** The value of a default-constructed CommandDescription. */
  const NoCommand := CommandDescription("", "", "")

  /** ParseCommandDescription: nothing without a colon, without a blank before the
      colon, or with only blanks between the first blank and the colon; otherwise the text
      before the first blank, the text from the next non-blank to the colon, and the text
      after the colon. */
  function ParseCommandDescription(line: string): CommandDescription
  {
    var colon := Find(line, ':', 0);
    if colon == |line| then NoCommand
    else
      var space := Find(line, ' ', 0);
      if space >= colon then NoCommand
      else
        var notSpace := FindNot(line, ' ', space);
        if notSpace >= colon then NoCommand
        else CommandDescription(line[..space], line[notSpace..colon], line[colon + 1..])
  }

  /** A command word, blanks, an id and a colon: the shape of a line that parses. */
  predicate CommandShape(command: string, blanks: nat, id: string) {
    ' ' !in command && ':' !in command && blanks > 0 && |id| > 0 && id[0] != ' ' && ':' !in id
  }

  /** Parsing reads back the parts of a line built from them. */
  lemma CommandRoundTrip(command: string, blanks: nat, id: string, description: string)
    requires CommandShape(command, blanks, id)
    ensures ParseCommandDescription(command + Spaces(blanks) + id + ":" + description) ==
      CommandDescription(command, id, description)
  {
    CommandLayout(command, blanks, id, description);
    var line := command + Spaces(blanks) + id + ":" + description;
    FindIs(line, ':', 0, |command| + blanks + |id|);
    FindIs(line, ' ', 0, |command|);
    FindNotIs(line, ' ', |command|, |command| + blanks);
    CommandIs(line, |command|, |command| + blanks, |command| + blanks + |id|);
  }

  /** Where the parts of a line built from them lie, and that the scans stop where they
      should. */
  lemma CommandLayout(command: string, blanks: nat, id: string, description: string)
    requires CommandShape(command, blanks, id)
    ensures var line := command + Spaces(blanks) + id + ":" + description;
      var c := |command|;
      var i := c + blanks;
      var colon := i + |id|;
      colon < |line| && line[colon] == ':' && line[c] == ' ' && line[i] != ' ' &&
      (forall k :: 0 <= k < colon ==> line[k] != ':') &&
      (forall k :: 0 <= k < c ==> line[k] != ' ') &&
      (forall k :: c <= k < i ==> line[k] == ' ') &&
      line[..c] == command && line[i..colon] == id && line[colon + 1..] == description
  {
    var line := command + Spaces(blanks) + id + ":" + description;
    var c := |command|;
    var i := c + blanks;
    var colon := i + |id|;
    assert forall k :: 0 <= k < c ==> line[k] == command[k];
    assert forall k :: c <= k < i ==> line[k] == ' ';
    assert forall k :: i <= k < colon ==> line[k] == id[k - i];
    assert line[..c] == command;
    assert line[i..colon] == id;
    assert line[colon + 1..] == description;
  }

  /** A line whose colon, first blank and id start are known parses into the parts they
      bound. */
  lemma CommandIs(line: string, c: nat, i: nat, colon: nat)
    requires colon < |line| && Find(line, ':', 0) == colon
    requires c < colon && Find(line, ' ', 0) == c
    requires i < colon && FindNot(line, ' ', c) == i
    ensures ParseCommandDescription(line) == CommandDescription(line[..c], line[i..colon], line[colon + 1..])
  {
  }

  /** A line parses into a command with an id exactly when it has that shape; it then is
      the command, some blanks, the id, a colon and the description. */
  lemma CommandParts(line: string)
    ensures var r := ParseCommandDescription(line);
      r == NoCommand || exists blanks: nat ::
        CommandShape(r.command, blanks, r.id) &&
        line == r.command + Spaces(blanks) + r.id + ":" + r.description
  {
    var r := ParseCommandDescription(line);
    var colon := Find(line, ':', 0);
    FindSkips(line, ':', 0);
    FindSkips(line, ' ', 0);
    if colon < |line| {
      var space := Find(line, ' ', 0);
      if space < colon {
        var notSpace := FindNot(line, ' ', space);
        if notSpace < colon {
          var blanks := notSpace - space;
          FindNotSkips(line, ' ', space);
          assert line[space..notSpace] == Spaces(blanks);
          assert line == line[..space] + line[space..notSpace] + line[notSpace..colon] + ":" + line[colon + 1..];
          assert CommandShape(r.command, blanks, r.id);
        }
      }
    }
  }

  /** The three ways a line yields no command. */
  lemma NoCommandCases(line: string)
    ensures ':' !in line ==> ParseCommandDescription(line) == NoCommand
    ensures ':' in line && ' ' !in line[..Find(line, ':', 0)] ==> ParseCommandDescription(line) == NoCommand
    ensures (':' in line && Find(line, ' ', 0) < Find(line, ':', 0) &&
             AllAre(line[Find(line, ' ', 0)..Find(line, ':', 0)], ' ')) ==>
      ParseCommandDescription(line) == NoCommand
  {
    var colon := Find(line, ':', 0);
    var space := Find(line, ' ', 0);
    FindSkips(line, ':', 0);
    FindSkips(line, ' ', 0);
    if ':' in line {
      var k :| 0 <= k < |line| && line[k] == ':';
      assert colon <= k;
      if ' ' in line[..colon] {
        var j :| 0 <= j < colon && line[..colon][j] == ' ';
        assert space <= j;
        if AllAre(line[space..colon], ' ') {
          assert forall k :: space <= k < colon ==> line[k] == line[space..colon][k - space];
        }
      }
    }
  }

  // ---------------------------------------------------------------------------
  // SplitLatLngAndDistances

  /** SplitLatLngAndDistances: the text up to the second comma, and the text after it.
      Without a second comma, `npos + 1` wraps around to 0 in the source, so the second
      part is then the whole description. */
  function SplitLatLngAndDistances(description: string): (string, string)
  {
    var n := |description|;
    var pos := Find(description, ',', 0);
    var coordsEnd := Find(description, ',', if pos == n then 0 else pos + 1);
    var distancesAt := if coordsEnd == n then 0 else coordsEnd + 1;
    (description[..coordsEnd], description[distancesAt..])
  }

  /** With a second comma the description is the coordinates, that comma and the
      distances, and the coordinates hold exactly one comma; without one both parts are
      the whole description. */
  lemma SplitLatLngSpec(description: string)
    ensures var (coords, distances) := SplitLatLngAndDistances(description);
      (coords == description && distances == description) ||
      (description == coords + "," + distances && |set k | 0 <= k < |coords| && coords[k] == ','| == 1)
  {
    var n := |description|;
    var pos := Find(description, ',', 0);
    var coordsEnd := Find(description, ',', if pos == n then 0 else pos + 1);
    if coordsEnd < n {
      assert pos < n;
      FindSkips(description, ',', 0);
      FindSkips(description, ',', pos + 1);
      var coords := description[..coordsEnd];
      assert (set k | 0 <= k < |coords| && coords[k] == ',') == {pos};
      assert description == coords + "," + description[coordsEnd + 1..];
    }
  }

  // ---------------------------------------------------------------------------
  // ParseStopDistances

  /** What one comma-separated chunk of a distance list says: nothing without an 'm', a
      failed std::stoi, or a distance to a stop. */
  datatype Chunk = Skip | Bad | Entry(name: string, distance: Int32)

  /** The text before the first 'm' is read with std::stoi; the text after it names the
      stop (DestinationName). */
  function ParseChunk(chunk: string): Chunk
  {
    var m := Find(chunk, 'm', 0);
    if m == |chunk| then Skip else ChunkAt(ParseInt(chunk[..m]), chunk[m + 1..])
  }

  /** What a chunk with an 'm' says, given what std::stoi made of the text before the 'm'
      and the text after it. */
  function ChunkAt(number: Option<(Int32, nat)>, rest: string): Chunk
  {
    if number.None? then Bad else Entry(DestinationName(rest), number.value.0)
  }

  /** The text after the 'm', trimmed and without one leading "to ". */
  function DestinationName(rest: string): string
  {
    var name := Trim(rest);
    if |name| >= 3 && name[..3] == "to " then name[3..] else name
  }

  /** A chunk is skipped exactly when it has no 'm'. */
  lemma ChunkSkipped(chunk: string)
    ensures ParseChunk(chunk) == Skip <==> 'm' !in chunk
  {
    var m := Find(chunk, 'm', 0);
    FindSkips(chunk, 'm', 0);
    if m < |chunk| {
      assert chunk[m] == 'm';
    }
  }

  /** What the loop of ParseStopDistances builds from the rest `str` of the list on top of
      the entries `acc` read so far: a later entry for a name replaces an earlier one, and
      a failed std::stoi (an exception in the source) spoils the whole list. */
  function DistancesFrom(str: string, acc: map<string, Int32>): Option<map<string, Int32>>
    decreases |str|
  {
    if |str| == 0 then Some(acc)
    else
      var pos := Find(str, ',', 0);
      match ParseChunk(str[..pos])
      case Bad => None
      case Skip => if pos == |str| then Some(acc) else DistancesFrom(str[pos + 1..], acc)
      case Entry(name, d) =>
        if pos == |str| then Some(acc[name := d]) else DistancesFrom(str[pos + 1..], acc[name := d])
  }

  /** ParseStopDistances: the loop of the source, cutting chunks off the front of `str`. */
  method ParseStopDistances(str: string) returns (r: Option<map<string, Int32>>)
    ensures r == DistancesFrom(str, map[])
  {
    var rest := str;
    var distances: map<string, Int32> := map[];
    while |rest| > 0
      invariant DistancesFrom(rest, distances) == DistancesFrom(str, map[])
      decreases |rest|
    {
      var pos := Find(rest, ',', 0);
      var chunk := ParseChunk(rest[..pos]);
      if chunk.Bad? {
        return None;
      }
      if chunk.Entry? {
        distances := distances[chunk.name := chunk.distance];
      }
      if pos == |rest| {
        return Some(distances);
      }
      rest := rest[pos + 1..];
    }
    return Some(distances);
  }

  /** A stop name as a distance list can carry it. */
  predicate StopName(name: string) {
    |name| > 0 && name[0] != ' ' && name[|name| - 1] != ' ' && ',' !in name
  }

  /** One entry as it is written after the coordinates: " <d>m to <name>". */
  function DistanceText(name: string, d: Int32): string {
    " " + IntToString(d) + "m to " + name
  }

  /** Entries written one after the other, separated by commas. */
  function DistancesText(es: seq<(string, Int32)>): string
  {
    if |es| == 0 then [] else if |es| == 1 then DistanceText(es[0].0, es[0].1)
    else DistanceText(es[0].0, es[0].1) + "," + DistancesText(es[1..])
  }

  /** The table the entries give when each overwrites any earlier one of its name. */
  function Overwrite(acc: map<string, Int32>, es: seq<(string, Int32)>): map<string, Int32>
    decreases |es|
  {
    if |es| == 0 then acc else Overwrite(acc[es[0].0 := es[0].1], es[1..])
  }

  lemma IntToStringHasNo(i: int, c: char)
    requires c != '-' && !IsDigit(c)
    ensures c !in IntToString(i)
  {
    if i < 0 {
      assert IntToString(i) == "-" + NatToString(-i);
    }
  }

  /** One written entry reads back as that entry. */
  lemma ChunkRoundTrip(name: string, d: Int32)
    requires StopName(name)
    ensures ParseChunk(DistanceText(name, d)) == Entry(name, d)
  {
    ChunkParts(name, d);
    ChunkNumber(d);
    DestinationOf(name);
    ChunkIs(DistanceText(name, d), 1 + |IntToString(d)|, d, 1 + |IntToString(d)|, name);
  }

  /** The number of a written entry, after its leading blank, reads back. */
  lemma ChunkNumber(d: Int32)
    ensures ParseInt([' '] + IntToString(d)) == Some((d, 1 + |IntToString(d)|))
  {
    IntRoundTrip(d, []);
    assert IntToString(d) + [] == IntToString(d);
    ParseIntSkipsSpace(IntToString(d), d, |IntToString(d)|);
  }

  /** A chunk whose number and name read back as given. */
  lemma ChunkIs(chunk: string, m: nat, d: Int32, n: nat, name: string)
    requires m < |chunk| && Find(chunk, 'm', 0) == m
    requires ParseInt(chunk[..m]) == Some((d, n))
    requires DestinationName(chunk[m + 1..]) == name
    ensures ParseChunk(chunk) == Entry(name, d)
  {
    ChunkAtM(chunk, m);
  }

  /** A chunk with its first 'm' at `m` says what the text on either side of it says. */
  lemma ChunkAtM(chunk: string, m: nat)
    requires m < |chunk| && Find(chunk, 'm', 0) == m
    ensures ParseChunk(chunk) == ChunkAt(ParseInt(chunk[..m]), chunk[m + 1..])
  {
  }

  /** Where the 'm' of a written entry is, and what lies on either side of it. */
  lemma ChunkParts(name: string, d: Int32)
    ensures Find(DistanceText(name, d), 'm', 0) == 1 + |IntToString(d)|
    ensures DistanceText(name, d)[..1 + |IntToString(d)|] == [' '] + IntToString(d)
    ensures DistanceText(name, d)[2 + |IntToString(d)|..] == " to " + name
  {
    var digits := IntToString(d);
    var chunk := DistanceText(name, d);
    IntToStringHasNo(d, 'm');
    assert forall k :: 1 <= k < 1 + |digits| ==> chunk[k] == digits[k - 1];
    FindIs(chunk, 'm', 0, 1 + |digits|);
  }

  /** The text after the 'm' of a written entry names its stop. */
  lemma DestinationOf(name: string)
    requires StopName(name)
    ensures DestinationName(" to " + name) == name
  {
    assert " to " + name == Spaces(1) + ("to " + name) + Spaces(0);
    TrimPadded(1, "to " + name, 0);
    assert ("to " + name)[3..] == name;
  }

  /** ParseStopDistances reads back a written list: every entry, a later one replacing an
      earlier one of the same name. */
  lemma {:induction false} DistancesRoundTrip(es: seq<(string, Int32)>, acc: map<string, Int32>)
    requires forall k :: 0 <= k < |es| ==> StopName(es[k].0)
    ensures DistancesFrom(DistancesText(es), acc) == Some(Overwrite(acc, es))
    decreases |es|
  {
    if |es| > 0 {
      assert StopName(es[0].0);
      DistancesHead(es, acc);
      if |es| > 1 {
        DistancesRoundTrip(es[1..], acc[es[0].0 := es[0].1]);
      }
    }
  }

  /** The first written entry is read, and reading goes on after its comma. */
  lemma DistancesHead(es: seq<(string, Int32)>, acc: map<string, Int32>)
    requires |es| > 0 && StopName(es[0].0)
    ensures |es| == 1 ==> DistancesFrom(DistancesText(es), acc) == Some(acc[es[0].0 := es[0].1])
    ensures |es| > 1 ==>
      DistancesFrom(DistancesText(es), acc) == DistancesFrom(DistancesText(es[1..]), acc[es[0].0 := es[0].1])
  {
    DistancesSplit(es);
    ChunkRoundTrip(es[0].0, es[0].1);
    DistancesStep(DistancesText(es), acc, |DistanceText(es[0].0, es[0].1)|, es[0].0, es[0].1);
  }

  /** Where the first comma of a written list is: right after the first entry. */
  lemma DistancesSplit(es: seq<(string, Int32)>)
    requires |es| > 0 && StopName(es[0].0)
    ensures Find(DistancesText(es), ',', 0) == |DistanceText(es[0].0, es[0].1)|
    ensures DistancesText(es)[..|DistanceText(es[0].0, es[0].1)|] == DistanceText(es[0].0, es[0].1)
    ensures |es| == 1 ==> |DistanceText(es[0].0, es[0].1)| == |DistancesText(es)|
    ensures |es| > 1 ==> |DistanceText(es[0].0, es[0].1)| < |DistancesText(es)|
    ensures |es| > 1 ==>
      DistancesText(es)[|DistanceText(es[0].0, es[0].1)| + 1..] == DistancesText(es[1..])
  {
    EntryHasNoComma(es[0].0, es[0].1);
    FirstEntry(DistancesText(es), DistanceText(es[0].0, es[0].1),
               if |es| > 1 then DistancesText(es[1..]) else [], |es| > 1);
  }

  /** The first comma of a text that is an entry without commas, then possibly a comma and
      more, is right after that entry. */
  lemma FirstEntry(str: string, chunk: string, rest: string, more: bool)
    requires forall k :: 0 <= k < |chunk| ==> chunk[k] != ','
    requires more ==> str == chunk + "," + rest
    requires !more ==> str == chunk
    ensures Find(str, ',', 0) == |chunk| && str[..|chunk|] == chunk
    ensures more ==> |chunk| < |str| && str[|chunk| + 1..] == rest
    ensures !more ==> |chunk| == |str|
  {
    if more {
      CommaThen(chunk, rest);
      assert chunk + "," + rest == chunk + ("," + rest);
    }
    FirstComma(str, |chunk|);
  }

  /** A written entry holds no comma. */
  lemma EntryHasNoComma(name: string, d: Int32)
    requires StopName(name)
    ensures forall k :: 0 <= k < |DistanceText(name, d)| ==> DistanceText(name, d)[k] != ','
  {
    IntToStringHasNo(d, ',');
    assert DistanceText(name, d) == " " + IntToString(d) + "m to " + name;
  }

  /** Text, a comma, then more text. */
  lemma CommaThen(a: string, b: string)
    ensures (a + ("," + b))[..|a|] == a && (a + ("," + b))[|a|] == ','
    ensures (a + ("," + b))[|a| + 1..] == b
  {
  }

  /** The first comma of `str` is at `n` when none comes before and one (or the end) is
      there. */
  lemma FirstComma(str: string, n: nat)
    requires n <= |str|
    requires forall k :: 0 <= k < n ==> str[..n][k] != ','
    requires n < |str| ==> str[n] == ','
    ensures Find(str, ',', 0) == n
  {
    forall k | 0 <= k < n ensures str[k] != ',' {
      assert str[k] == str[..n][k];
    }
    FindIs(str, ',', 0, n);
  }

  /** One step of the reading loop over a chunk that names a stop. */
  lemma DistancesStep(str: string, acc: map<string, Int32>, pos: nat, name: string, d: Int32)
    requires 0 < |str| && Find(str, ',', 0) == pos && ParseChunk(str[..pos]) == Entry(name, d)
    ensures pos == |str| ==> DistancesFrom(str, acc) == Some(acc[name := d])
    ensures pos < |str| ==> DistancesFrom(str, acc) == DistancesFrom(str[pos + 1..], acc[name := d])
  {
  }

  // ---------------------------------------------------------------------------
  // InputReader::ParseLine

  /** The fields of InputReader as one value: the Stop and Bus commands in the order they
      were read, and the distances read from each Stop line, by stop id. */
  datatype ReaderState = ReaderState(commands: seq<CommandDescription>,
                                     stopDistances: map<string, map<string, Int32>>)

  const EmptyReader := ReaderState([], map[])

  /** The distances a Stop command lists after its coordinates. */
  function StopDistancesOf(cd: CommandDescription): Option<map<string, Int32>>
  {
    DistancesFrom(SplitLatLngAndDistances(cd.description).1, map[])
  }

  /** ParseLine on the reader's state: a Stop line stores its distances and is kept, a Bus
      line is kept, any other line is dropped. None where std::stoi throws on the
      distances of a Stop line, which happens before anything is stored. */
  function ReadLine(st: ReaderState, line: string): Option<ReaderState>
  {
    var cd := ParseCommandDescription(line);
    if cd.command == "Stop" then
      var distances := StopDistancesOf(cd);
      if distances.None? then None
      else Some(ReaderState(st.commands + [cd], st.stopDistances[cd.id := distances.value]))
    else if cd.command == "Bus" then Some(st.(commands := st.commands + [cd]))
    else Some(st)
  }

  /** ParseLine line after line, up to the first line that throws. */
  function ReadLines(st: ReaderState, lines: seq<string>): Option<ReaderState>
    decreases |lines|
  {
    if |lines| == 0 then Some(st)
    else
      var next := ReadLine(st, lines[0]);
      if next.None? then None else ReadLines(next.value, lines[1..])
  }

  /** The commands of `lines` that are Stop or Bus commands, in order. */
  function Kept(lines: seq<string>): seq<CommandDescription>
    decreases |lines|
  {
    if |lines| == 0 then [] else KeptOf(lines[0]) + Kept(lines[1..])
  }

  /** The command of a line when it is a Stop or a Bus command, and nothing otherwise. */
  function KeptOf(line: string): seq<CommandDescription>
  {
    var cd := ParseCommandDescription(line);
    if cd.command == "Stop" || cd.command == "Bus" then [cd] else []
  }

  /** The reader holds only Stop and Bus commands, a distance table for the id of every Stop
      command, and no table for any other id. */
  ghost predicate ReaderValid(st: ReaderState) {
    (forall i :: 0 <= i < |st.commands| ==> st.commands[i].command == "Stop" || st.commands[i].command == "Bus")
    && (forall i :: 0 <= i < |st.commands| && st.commands[i].command == "Stop" ==> st.commands[i].id in st.stopDistances)
    && (forall id :: id in st.stopDistances ==>
          exists i :: 0 <= i < |st.commands| && st.commands[i].command == "Stop" && st.commands[i].id == id)
  }

  /** Reading a line keeps ReaderValid. */
  lemma ReadLineValid(st: ReaderState, line: string)
    requires ReaderValid(st) && ReadLine(st, line).Some?
    ensures ReaderValid(ReadLine(st, line).value)
  {
    var cd := ParseCommandDescription(line);
    var r := ReadLine(st, line).value;
    if cd.command == "Stop" || cd.command == "Bus" {
      assert r.commands == st.commands + [cd];
      forall id | id in r.stopDistances
        ensures exists i :: 0 <= i < |r.commands| && r.commands[i].command == "Stop" && r.commands[i].id == id
      {
        if cd.command == "Stop" && id == cd.id {
          assert r.commands[|st.commands|] == cd;
        } else {
          var i :| 0 <= i < |st.commands| && st.commands[i].command == "Stop" && st.commands[i].id == id;
          assert r.commands[i] == st.commands[i];
        }
      }
    }
  }

  /** Reading a line appends its command when it is a Stop or a Bus command. */
  lemma ReadLineCommands(st: ReaderState, line: string)
    requires ReadLine(st, line).Some?
    ensures ReadLine(st, line).value.commands == st.commands + KeptOf(line)
  {
  }

  /** Reading lines keeps exactly their Stop and Bus commands, in order. */
  lemma {:induction false} ReadLinesKeeps(st: ReaderState, lines: seq<string>)
    ensures ReadLines(st, lines).Some? ==> ReadLines(st, lines).value.commands == st.commands + Kept(lines)
    decreases |lines|
  {
    if |lines| > 0 {
      var next := ReadLine(st, lines[0]);
      if next.Some? {
        ReadLineCommands(st, lines[0]);
        ReadLinesKeeps(next.value, lines[1..]);
        assert (st.commands + KeptOf(lines[0])) + Kept(lines[1..]) == st.commands + (KeptOf(lines[0]) + Kept(lines[1..]));
      }
    }
  }

  /** Reading lines keeps ReaderValid. */
  lemma {:induction false} ReadLinesValid(st: ReaderState, lines: seq<string>)
    requires ReaderValid(st)
    ensures ReadLines(st, lines).Some? ==> ReaderValid(ReadLines(st, lines).value)
    decreases |lines|
  {
    if |lines| > 0 {
      var next := ReadLine(st, lines[0]);
      if next.Some? {
        ReadLineValid(st, lines[0]);
        ReadLinesValid(next.value, lines[1..]);
      }
    }
  }

  /** A Stop line whose distances std::stoi cannot read: ParseLine throws on it. */
  predicate Throws(line: string) {
    ParseCommandDescription(line).command == "Stop" && StopDistancesOf(ParseCommandDescription(line)).None?
  }

  /** Reading one line fails exactly on a line that throws. */
  lemma ReadLineThrows(st: ReaderState, line: string)
    ensures ReadLine(st, line).None? <==> Throws(line)
  {
  }

  /** Reading fails exactly when some line throws and the lines before it were read. */
  lemma {:induction false} ReadLinesFails(st: ReaderState, lines: seq<string>)
    ensures ReadLines(st, lines).None? <==>
      exists k :: 0 <= k < |lines| && Throws(lines[k]) && ReadLines(st, lines[..k]).Some?
    decreases |lines|
  {
    if |lines| > 0 {
      ReadLineThrows(st, lines[0]);
      assert lines[..0] == [];
      var next := ReadLine(st, lines[0]);
      if next.Some? {
        ReadLinesFails(next.value, lines[1..]);
        PrefixShift(st, lines);
        if ReadLines(st, lines).None? {
          var k :| 0 <= k < |lines[1..]| && Throws(lines[1..][k]) && ReadLines(next.value, lines[1..][..k]).Some?;
          assert lines[k + 1] == lines[1..][k];
        } else {
          forall k | 0 <= k < |lines| && Throws(lines[k]) ensures ReadLines(st, lines[..k]).None? {
            if k > 0 {
              assert lines[1..][k - 1] == lines[k];
            }
          }
        }
      }
    }
  }

  /** Reading a prefix of the lines reads the first line and then a prefix of the rest. */
  lemma PrefixShift(st: ReaderState, lines: seq<string>)
    requires |lines| > 0 && ReadLine(st, lines[0]).Some?
    ensures forall k :: 0 < k <= |lines| ==>
      ReadLines(st, lines[..k]) == ReadLines(ReadLine(st, lines[0]).value, lines[1..][..k - 1])
  {
    forall k | 0 < k <= |lines|
      ensures ReadLines(st, lines[..k]) == ReadLines(ReadLine(st, lines[0]).value, lines[1..][..k - 1])
    {
      assert lines[..k][0] == lines[0] && lines[..k][1..] == lines[1..][..k - 1];
    }
  }

  // ---------------------------------------------------------------------------
  // InputReader::ApplyCommands

  /** The first pass of ApplyCommands: every Stop command adds its stop, in order, at the
      coordinates `coords` reads from its description. */
  function AddStops(cat: CatalogueState, cmds: seq<CommandDescription>, coords: string -> Coordinates): CatalogueState
    decreases |cmds|
  {
    if |cmds| == 0 then cat
    else
      var next := if cmds[0].command == "Stop" then cat.AddStop(cmds[0].id, coords(cmds[0].description)) else cat;
      AddStops(next, cmds[1..], coords)
  }

  /** The first pass keeps the catalogue valid, keeps every stop name it knew, makes the id
      of every Stop command known, and adds no bus. */
  lemma {:induction false} AddStopsValid(cat: CatalogueState, cmds: seq<CommandDescription>, coords: string -> Coordinates)
    requires cat.Valid()
    ensures AddStops(cat, cmds, coords).Valid()
    ensures forall n :: n in cat.stopIndex ==> n in AddStops(cat, cmds, coords).stopIndex
    ensures forall i :: 0 <= i < |cmds| && cmds[i].command == "Stop" ==> cmds[i].id in AddStops(cat, cmds, coords).stopIndex
    ensures AddStops(cat, cmds, coords).buses == cat.buses && AddStops(cat, cmds, coords).busIndex == cat.busIndex
    decreases |cmds|
  {
    if |cmds| > 0 {
      var next := if cmds[0].command == "Stop" then cat.AddStop(cmds[0].id, coords(cmds[0].description)) else cat;
      if cmds[0].command == "Stop" {
        AddStopSpec(cat, cmds[0].id, coords(cmds[0].description));
      }
      AddStopsValid(next, cmds[1..], coords);
      forall i | 0 < i < |cmds| && cmds[i].command == "Stop"
        ensures cmds[i].id in AddStops(cat, cmds, coords).stopIndex
      {
        assert cmds[1..][i - 1] == cmds[i];
      }
    }
  }

  /** The (from, to) name pairs the distance tables hold. */
  function DistancePairs(sd: map<string, map<string, Int32>>): set<(string, string)>
  {
    set f, t | f in sd && t in sd[f] :: (f, t)
  }

  /** The position pairs of the name pairs in `done` that have a listed distance and name
      two known stops. */
  function DistanceKeys(cat: CatalogueState, sd: map<string, map<string, Int32>>,
                        done: set<(string, string)>): set<(nat, nat)>
  {
    set p | p in done && p.0 in sd && p.1 in sd[p.0] && p.0 in cat.stopIndex && p.1 in cat.stopIndex
      :: (cat.stopIndex[p.0], cat.stopIndex[p.1])
  }

  /** The distances the second pass stores for the name pairs `done`, keyed by the
      positions of the two stops. */
  function DistanceEntries(cat: CatalogueState, sd: map<string, map<string, Int32>>,
                           done: set<(string, string)>): map<(nat, nat), int>
    requires cat.Valid()
  {
    map key | key in DistanceKeys(cat, sd, done) :: sd[cat.stops[key.0].name][cat.stops[key.1].name]
  }

  /** The second pass of ApplyCommands: every listed distance between two known stops is
      stored. The stored keys are position pairs of different name pairs, so the order in
      which the unordered maps are walked does not matter. */
  function WithDistances(cat: CatalogueState, sd: map<string, map<string, Int32>>): CatalogueState
    requires cat.Valid()
  {
    cat.(distances := cat.distances + DistanceEntries(cat, sd, DistancePairs(sd)))
  }

  /** Storing one more name pair adds its one entry when both its stops are known, and
      nothing otherwise. */
  lemma EntriesStep(cat: CatalogueState, sd: map<string, map<string, Int32>>,
                    done: set<(string, string)>, f: string, t: string)
    requires cat.Valid() && f in sd && t in sd[f]
    ensures f in cat.stopIndex && t in cat.stopIndex ==>
      DistanceEntries(cat, sd, done + {(f, t)}) ==
      DistanceEntries(cat, sd, done)[(cat.stopIndex[f], cat.stopIndex[t]) := sd[f][t]]
    ensures !(f in cat.stopIndex && t in cat.stopIndex) ==>
      DistanceEntries(cat, sd, done + {(f, t)}) == DistanceEntries(cat, sd, done)
  {
    KeysStep(cat, sd, done, f, t);
    if f in cat.stopIndex && t in cat.stopIndex {
      assert cat.stops[cat.stopIndex[f]].name == f && cat.stops[cat.stopIndex[t]].name == t;
    }
  }

  lemma KeysStep(cat: CatalogueState, sd: map<string, map<string, Int32>>,
                 done: set<(string, string)>, f: string, t: string)
    requires f in sd && t in sd[f]
    ensures f in cat.stopIndex && t in cat.stopIndex ==>
      DistanceKeys(cat, sd, done + {(f, t)}) == DistanceKeys(cat, sd, done) + {(cat.stopIndex[f], cat.stopIndex[t])}
    ensures !(f in cat.stopIndex && t in cat.stopIndex) ==>
      DistanceKeys(cat, sd, done + {(f, t)}) == DistanceKeys(cat, sd, done)
  {
    if f in cat.stopIndex && t in cat.stopIndex {
      assert (f, t) in done + {(f, t)};
    }
  }

  /** The second pass keeps the catalogue valid and changes only distances: for two known
      stops with a listed distance it is that distance (WithDistancesListed), for two known
      stops without one it is what it was (WithDistancesUnlisted). */
  lemma WithDistancesSpec(cat: CatalogueState, sd: map<string, map<string, Int32>>)
    requires cat.Valid()
    ensures WithDistances(cat, sd).Valid()
    ensures WithDistances(cat, sd).(distances := cat.distances) == cat
    ensures forall f, t :: f in sd && t in sd[f] && f in cat.stopIndex && t in cat.stopIndex ==>
      WithDistances(cat, sd).GetDistance(cat.stopIndex[f], cat.stopIndex[t]) == Some(sd[f][t] as int)
    ensures forall f, t :: f in cat.stopIndex && t in cat.stopIndex && !(f in sd && t in sd[f]) ==>
      WithDistances(cat, sd).GetDistance(cat.stopIndex[f], cat.stopIndex[t]) ==
      cat.GetDistance(cat.stopIndex[f], cat.stopIndex[t])
  {
    WithDistancesValid(cat, sd);
    forall f, t | f in sd && t in sd[f] && f in cat.stopIndex && t in cat.stopIndex
      ensures WithDistances(cat, sd).GetDistance(cat.stopIndex[f], cat.stopIndex[t]) == Some(sd[f][t] as int)
    {
      WithDistancesListed(cat, sd, f, t);
    }
    forall f, t | f in cat.stopIndex && t in cat.stopIndex && !(f in sd && t in sd[f])
      ensures WithDistances(cat, sd).GetDistance(cat.stopIndex[f], cat.stopIndex[t]) ==
        cat.GetDistance(cat.stopIndex[f], cat.stopIndex[t])
    {
      WithDistancesUnlisted(cat, sd, f, t);
    }
  }

  lemma WithDistancesValid(cat: CatalogueState, sd: map<string, map<string, Int32>>)
    requires cat.Valid()
    ensures WithDistances(cat, sd).Valid()
    ensures WithDistances(cat, sd).(distances := cat.distances) == cat
  {
    forall key | key in DistanceKeys(cat, sd, DistancePairs(sd)) ensures key.0 < |cat.stops| && key.1 < |cat.stops| {
    }
  }

  lemma WithDistancesListed(cat: CatalogueState, sd: map<string, map<string, Int32>>, f: string, t: string)
    requires cat.Valid() && f in sd && t in sd[f] && f in cat.stopIndex && t in cat.stopIndex
    ensures WithDistances(cat, sd).GetDistance(cat.stopIndex[f], cat.stopIndex[t]) == Some(sd[f][t] as int)
  {
    assert (f, t) in DistancePairs(sd);
    assert (cat.stopIndex[f], cat.stopIndex[t]) in DistanceKeys(cat, sd, DistancePairs(sd));
  }

  lemma WithDistancesUnlisted(cat: CatalogueState, sd: map<string, map<string, Int32>>, f: string, t: string)
    requires cat.Valid() && f in cat.stopIndex && t in cat.stopIndex && !(f in sd && t in sd[f])
    ensures WithDistances(cat, sd).GetDistance(cat.stopIndex[f], cat.stopIndex[t]) ==
      cat.GetDistance(cat.stopIndex[f], cat.stopIndex[t])
  {
  }

  /** The stop names a Bus command gives AddBus: its route, closed back to its first stop
      when it is written with '>' and does not already end there. On a '>' route with no
      names the source reads the first of none, which is undefined; no stop is added
      there. */
  function BusStops(description: string): seq<string>
  {
    var stops := ParseRoute(description);
    if '>' in description && |stops| > 0 && stops[0] != stops[|stops| - 1] then stops + [stops[0]]
    else stops
  }

  /** A Bus command's stops start with its route. A '>' route holds the pieces between the
      '>'s and ends where it starts; any other route reads the same both ways. */
  lemma BusStopsShape(description: string)
    ensures |ParseRoute(description)| <= |BusStops(description)|
    ensures BusStops(description)[..|ParseRoute(description)|] == ParseRoute(description)
    ensures '>' in description ==> ParseRoute(description) == Pieces(description, '>', 0)
    ensures '>' in description && |BusStops(description)| > 0 ==>
      BusStops(description)[0] == BusStops(description)[|BusStops(description)| - 1]
    ensures '>' !in description ==>
      forall k :: 0 <= k < |BusStops(description)| ==>
        BusStops(description)[k] == BusStops(description)[|BusStops(description)| - 1 - k]
  {
    ParseRouteShape(description);
  }

  /** The third pass of ApplyCommands: every Bus command adds its bus, in order, up to the
      first that names an unknown stop, where the source's std::out_of_range ends the
      pass. */
  function AddBuses(cat: CatalogueState, cmds: seq<CommandDescription>): AddBusOutcome
    decreases |cmds|
  {
    if |cmds| == 0 then AddBusOutcome(cat, None)
    else if cmds[0].command != "Bus" then AddBuses(cat, cmds[1..])
    else
      var o := cat.AddBus(cmds[0].id, BusStops(cmds[0].description), '>' in cmds[0].description);
      if o.unknownStop.Some? then o else AddBuses(o.state, cmds[1..])
  }

  /** What one AddBus keeps and what its outcome says, as the passes need it. */
  lemma AddBusKeeps(cat: CatalogueState, name: string, names: seq<string>, circ: bool)
    requires cat.Valid()
    ensures cat.AddBus(name, names, circ).state.Valid()
    ensures cat.AddBus(name, names, circ).state.stops == cat.stops
    ensures cat.AddBus(name, names, circ).state.stopIndex == cat.stopIndex
    ensures cat.AddBus(name, names, circ).state.distances == cat.distances
    ensures forall n :: n in cat.busIndex ==> n in cat.AddBus(name, names, circ).state.busIndex
    ensures (forall k :: 0 <= k < |names| ==> names[k] in cat.stopIndex) ==>
      cat.AddBus(name, names, circ).unknownStop.None? && name in cat.AddBus(name, names, circ).state.busIndex
    ensures cat.AddBus(name, names, circ).unknownStop.Some? ==>
      cat.AddBus(name, names, circ).unknownStop.value in names &&
      cat.AddBus(name, names, circ).unknownStop.value !in cat.stopIndex
  {
    if exists k :: 0 <= k < |names| && names[k] !in cat.stopIndex {
      AddBusUnknownStop(cat, name, names, circ);
    } else {
      AddBusRegisters(cat, name, names, circ);
    }
  }

  /** The third pass keeps the catalogue valid, changes no stop and no distance, and keeps
      every bus it knew. */
  lemma {:induction false} AddBusesKeeps(cat: CatalogueState, cmds: seq<CommandDescription>)
    requires cat.Valid()
    ensures AddBuses(cat, cmds).state.Valid()
    ensures AddBuses(cat, cmds).state.stops == cat.stops && AddBuses(cat, cmds).state.stopIndex == cat.stopIndex
    ensures AddBuses(cat, cmds).state.distances == cat.distances
    ensures forall n :: n in cat.busIndex ==> n in AddBuses(cat, cmds).state.busIndex
    decreases |cmds|
  {
    if |cmds| > 0 {
      if cmds[0].command != "Bus" {
        AddBusesKeeps(cat, cmds[1..]);
      } else {
        var o := cat.AddBus(cmds[0].id, BusStops(cmds[0].description), '>' in cmds[0].description);
        AddBusKeeps(cat, cmds[0].id, BusStops(cmds[0].description), '>' in cmds[0].description);
        if o.unknownStop.None? {
          AddBusesKeeps(o.state, cmds[1..]);
        }
      }
    }
  }

  /** The third pass fails only on a name on the route of one of its Bus commands that is
      not a known stop. */
  lemma {:induction false} AddBusesFails(cat: CatalogueState, cmds: seq<CommandDescription>)
    requires cat.Valid()
    ensures AddBuses(cat, cmds).unknownStop.Some? ==>
      AddBuses(cat, cmds).unknownStop.value !in cat.stopIndex &&
      exists i :: 0 <= i < |cmds| && cmds[i].command == "Bus" &&
        AddBuses(cat, cmds).unknownStop.value in BusStops(cmds[i].description)
    decreases |cmds|
  {
    if |cmds| > 0 {
      var next := cat;
      if cmds[0].command == "Bus" {
        var o := cat.AddBus(cmds[0].id, BusStops(cmds[0].description), '>' in cmds[0].description);
        AddBusKeeps(cat, cmds[0].id, BusStops(cmds[0].description), '>' in cmds[0].description);
        if o.unknownStop.Some? {
          return;
        }
        next := o.state;
      }
      assert AddBuses(cat, cmds) == AddBuses(next, cmds[1..]);
      AddBusesFails(next, cmds[1..]);
      if AddBuses(next, cmds[1..]).unknownStop.Some? {
        var i :| 0 <= i < |cmds[1..]| && cmds[1..][i].command == "Bus" &&
          AddBuses(next, cmds[1..]).unknownStop.value in BusStops(cmds[1..][i].description);
        assert cmds[i + 1] == cmds[1..][i];
      }
    }
  }

  /** When every name on the route of every Bus command is a known stop, the third pass
      does not fail and registers every bus. */
  lemma {:induction false} AddBusesKnown(cat: CatalogueState, cmds: seq<CommandDescription>)
    requires cat.Valid()
    requires forall i, k :: 0 <= i < |cmds| && cmds[i].command == "Bus" && 0 <= k < |BusStops(cmds[i].description)| ==>
      BusStops(cmds[i].description)[k] in cat.stopIndex
    ensures AddBuses(cat, cmds).unknownStop.None?
    ensures forall i :: 0 <= i < |cmds| && cmds[i].command == "Bus" ==> cmds[i].id in AddBuses(cat, cmds).state.busIndex
    decreases |cmds|
  {
    if |cmds| > 0 {
      var next := cat;
      if cmds[0].command == "Bus" {
        AddBusKeeps(cat, cmds[0].id, BusStops(cmds[0].description), '>' in cmds[0].description);
        next := cat.AddBus(cmds[0].id, BusStops(cmds[0].description), '>' in cmds[0].description).state;
      }
      assert AddBuses(cat, cmds) == AddBuses(next, cmds[1..]);
      forall i, k | 0 <= i < |cmds[1..]| && cmds[1..][i].command == "Bus" && 0 <= k < |BusStops(cmds[1..][i].description)|
        ensures BusStops(cmds[1..][i].description)[k] in next.stopIndex
      {
        assert cmds[1..][i] == cmds[i + 1];
      }
      AddBusesKnown(next, cmds[1..]);
      AddBusesKeeps(next, cmds[1..]);
      forall i | 0 < i < |cmds| && cmds[i].command == "Bus"
        ensures cmds[i].id in AddBuses(cat, cmds).state.busIndex
      {
        assert cmds[1..][i - 1] == cmds[i];
      }
    }
  }

  /** Every name on the route of a Bus command is the id of some Stop command. */
  predicate RoutesNameStops(cmds: seq<CommandDescription>) {
    forall i, k ::
      (0 <= i < |cmds| && cmds[i].command == "Bus" && 0 <= k < |BusStops(cmds[i].description)|) ==>
        (exists j :: 0 <= j < |cmds| && cmds[j].command == "Stop" && cmds[j].id == BusStops(cmds[i].description)[k])
  }

  /** ApplyCommands: stops first, then distances, then buses. */
  function Apply(cat: CatalogueState, rs: ReaderState, coords: string -> Coordinates): AddBusOutcome
    requires cat.Valid()
  {
    AddStopsValid(cat, rs.commands, coords);
    AddBuses(WithDistances(AddStops(cat, rs.commands, coords), rs.stopDistances), rs.commands)
  }

  /** When every name on a route is the id of some Stop command, ApplyCommands does not
      fail, and every stop and every bus of the commands is known afterwards. */
  lemma ApplyAllKnown(cat: CatalogueState, rs: ReaderState, coords: string -> Coordinates)
    requires cat.Valid()
    requires RoutesNameStops(rs.commands)
    ensures Apply(cat, rs, coords).unknownStop.None?
    ensures forall i :: 0 <= i < |rs.commands| && rs.commands[i].command == "Stop" ==>
      rs.commands[i].id in Apply(cat, rs, coords).state.stopIndex
    ensures forall i :: 0 <= i < |rs.commands| && rs.commands[i].command == "Bus" ==>
      rs.commands[i].id in Apply(cat, rs, coords).state.busIndex
  {
    var withStops := AddStops(cat, rs.commands, coords);
    AddStopsValid(cat, rs.commands, coords);
    var withDistances := WithDistances(withStops, rs.stopDistances);
    WithDistancesValid(withStops, rs.stopDistances);
    RoutesKnownAfterStops(cat, rs.commands, coords);
    AddBusesKnown(withDistances, rs.commands);
    AddBusesKeeps(withDistances, rs.commands);
  }

  /** A route name that is the id of a Stop command is a known stop after the first
      pass. */
  lemma RoutesKnownAfterStops(cat: CatalogueState, cmds: seq<CommandDescription>, coords: string -> Coordinates)
    requires cat.Valid()
    requires RoutesNameStops(cmds)
    ensures forall i, k ::
      (0 <= i < |cmds| && cmds[i].command == "Bus" && 0 <= k < |BusStops(cmds[i].description)|) ==>
        BusStops(cmds[i].description)[k] in AddStops(cat, cmds, coords).stopIndex
  {
    AddStopsValid(cat, cmds, coords);
  }

  /** Whatever the third pass does, ApplyCommands leaves the catalogue valid and stores the
      listed distance between any two stops it knows afterwards. */
  lemma ApplyDistances(cat: CatalogueState, rs: ReaderState, coords: string -> Coordinates)
    requires cat.Valid()
    ensures Apply(cat, rs, coords).state.Valid()
    ensures forall f, t ::
      (f in rs.stopDistances && t in rs.stopDistances[f] &&
       f in Apply(cat, rs, coords).state.stopIndex && t in Apply(cat, rs, coords).state.stopIndex) ==>
        Apply(cat, rs, coords).state.GetDistance(Apply(cat, rs, coords).state.stopIndex[f],
                                                 Apply(cat, rs, coords).state.stopIndex[t]) ==
        Some(rs.stopDistances[f][t] as int)
  {
    var withStops := AddStops(cat, rs.commands, coords);
    AddStopsValid(cat, rs.commands, coords);
    var withDistances := WithDistances(withStops, rs.stopDistances);
    WithDistancesSpec(withStops, rs.stopDistances);
    AddBusesKeeps(withDistances, rs.commands);
  }

  /** Before the second pass nothing is stored. */
  lemma EntriesNone(cat: CatalogueState, sd: map<string, map<string, Int32>>)
    requires cat.Valid()
    ensures cat.distances + DistanceEntries(cat, sd, {}) == cat.distances
  {
    assert DistanceKeys(cat, sd, {}) == {};
  }

  /** The name pairs `done` are exactly those whose from-name is not among `names`. */
  ghost predicate DoneBut(sd: map<string, map<string, Int32>>, done: set<(string, string)>, names: set<string>) {
    done <= DistancePairs(sd) && forall p :: p in DistancePairs(sd) ==> (p in done <==> p.0 !in names)
  }

  lemma DoneStep(sd: map<string, map<string, Int32>>, done: set<(string, string)>, names: set<string>, from: string)
    requires from in names && names <= sd.Keys && DoneBut(sd, done, names)
    ensures DoneBut(sd, done + set t | t in sd[from] :: (from, t), names - {from})
  {
    var added := set t | t in sd[from] :: (from, t);
    forall p | p in added ensures p in DistancePairs(sd) {
      assert p.0 == from && p.1 in sd[from];
    }
  }

  lemma DoneAll(sd: map<string, map<string, Int32>>, done: set<(string, string)>)
    requires DoneBut(sd, done, {})
    ensures done == DistancePairs(sd)
  {
  }

  /** Storing into the union stores into its right-hand side. */
  lemma StoreInto(d: map<(nat, nat), int>, e: map<(nat, nat), int>, key: (nat, nat), v: int)
    ensures (d + e)[key := v] == d + e[key := v]
  {
  }

  // ---------------------------------------------------------------------------
  // class InputReader

  class InputReader {
    var commands: seq<CommandDescription>
    var stopDistances: map<string, map<string, Int32>>

    function State(): ReaderState
      reads this
    {
      ReaderState(commands, stopDistances)
    }

    constructor ()
      ensures State() == EmptyReader
    {
      commands := [];
      stopDistances := map[];
    }

    /** ParseLine: false where std::stoi throws, and the reader is then as it was. */
    method ParseLine(line: string) returns (ok: bool)
      modifies this
      ensures ok <==> ReadLine(old(State()), line).Some?
      ensures ok ==> State() == ReadLine(old(State()), line).value
      ensures !ok ==> State() == old(State())
    {
      var cd := ParseCommandDescription(line);
      if cd.command == "Stop" {
        var (latLng, distancesText) := SplitLatLngAndDistances(cd.description);
        var distances := ParseStopDistances(distancesText);
        if distances.None? {
          return false;
        }
        stopDistances := stopDistances[cd.id := distances.value];
        commands := commands + [cd];
      } else if cd.command == "Bus" {
        commands := commands + [cd];
      }
      return true;
    }

    /** ApplyCommands: the three passes in turn. Returns the unknown stop name where the
        source throws std::out_of_range out of AddBus. */
    method ApplyCommands(catalogue: TransportCatalogue, coords: string -> Coordinates) returns (unknownStop: Option<string>)
      requires catalogue.Valid()
      modifies catalogue
      ensures catalogue.Valid()
      ensures catalogue.State() == Apply(old(catalogue.State()), State(), coords).state
      ensures unknownStop == Apply(old(catalogue.State()), State(), coords).unknownStop
    {
      ghost var st0 := catalogue.State();
      AddStopsValid(st0, commands, coords);
      AddStopCommands(catalogue, coords);
      ghost var st1 := catalogue.State();
      SetStopDistances(catalogue);
      ghost var st2 := catalogue.State();
      assert st2 == WithDistances(AddStops(st0, commands, coords), stopDistances);
      unknownStop := AddBusCommands(catalogue);
    }

    /** The first pass: a loop over the commands adding every stop. */
    method AddStopCommands(catalogue: TransportCatalogue, coords: string -> Coordinates)
      requires catalogue.Valid()
      modifies catalogue
      ensures catalogue.Valid()
      ensures catalogue.State() == AddStops(old(catalogue.State()), commands, coords)
    {
      ghost var st0 := catalogue.State();
      var i := 0;
      while i < |commands|
        invariant 0 <= i <= |commands|
        invariant catalogue.Valid()
        invariant AddStops(catalogue.State(), commands[i..], coords) == AddStops(st0, commands, coords)
      {
        var command := commands[i];
        assert commands[i..][1..] == commands[i + 1..];
        if command.command == "Stop" {
          catalogue.AddStop(command.id, coords(command.description));
        }
        i := i + 1;
      }
    }

    /** The second pass: every distance of every stop's table, in the order the maps are
        walked. */
    method SetStopDistances(catalogue: TransportCatalogue)
      requires catalogue.Valid()
      modifies catalogue
      ensures catalogue.Valid()
      ensures catalogue.State() == WithDistances(old(catalogue.State()), stopDistances)
    {
      ghost var st0 := catalogue.State();
      ghost var done: set<(string, string)> := {};
      EntriesNone(st0, stopDistances);
      var names := stopDistances.Keys;
      while names != {}
        invariant names <= stopDistances.Keys && DoneBut(stopDistances, done, names)
        invariant catalogue.Valid() && catalogue.State().(distances := st0.distances) == st0
        invariant catalogue.distances == st0.distances + DistanceEntries(st0, stopDistances, done)
        decreases names
      {
        var from :| from in names;
        ghost var before := done;
        done := SetDistancesFrom(catalogue, from, st0, done);
        DoneStep(stopDistances, before, names, from);
        names := names - {from};
      }
      DoneAll(stopDistances, done);
    }

    /** The inner loop of the second pass: the distances of one stop's table. Returns the
        name pairs stored so far. */
    method SetDistancesFrom(catalogue: TransportCatalogue, from: string, ghost st0: CatalogueState,
                            ghost done0: set<(string, string)>) returns (ghost done: set<(string, string)>)
      requires from in stopDistances && st0.Valid()
      requires catalogue.Valid() && catalogue.State().(distances := st0.distances) == st0
      requires catalogue.distances == st0.distances + DistanceEntries(st0, stopDistances, done0)
      modifies catalogue
      ensures done == done0 + set t | t in stopDistances[from] :: (from, t)
      ensures catalogue.Valid() && catalogue.State().(distances := st0.distances) == st0
      ensures catalogue.distances == st0.distances + DistanceEntries(st0, stopDistances, done)
    {
      done := done0;
      var tos := stopDistances[from].Keys;
      while tos != {}
        invariant tos <= stopDistances[from].Keys
        invariant done == done0 + set t | t in stopDistances[from] && t !in tos :: (from, t)
        invariant catalogue.Valid() && catalogue.State().(distances := st0.distances) == st0
        invariant catalogue.distances == st0.distances + DistanceEntries(st0, stopDistances, done)
        decreases tos
      {
        var to :| to in tos;
        SetDistanceOf(catalogue, from, to, st0, done);
        done := done + {(from, to)};
        tos := tos - {to};
      }
    }

    /** One step of the inner loop: SetDistance for one listed pair when both stops are
        found. */
    method SetDistanceOf(catalogue: TransportCatalogue, from: string, to: string, ghost st0: CatalogueState,
                         ghost done: set<(string, string)>)
      requires from in stopDistances && to in stopDistances[from] && st0.Valid()
      requires catalogue.Valid() && catalogue.State().(distances := st0.distances) == st0
      requires catalogue.distances == st0.distances + DistanceEntries(st0, stopDistances, done)
      modifies catalogue
      ensures catalogue.Valid() && catalogue.State().(distances := st0.distances) == st0
      ensures catalogue.distances == st0.distances + DistanceEntries(st0, stopDistances, done + {(from, to)})
    {
      var fromStop := catalogue.FindStop(from);
      var toStop := catalogue.FindStop(to);
      EntriesStep(st0, stopDistances, done, from, to);
      if fromStop.Some? && toStop.Some? {
        catalogue.SetDistance(fromStop.value, toStop.value, stopDistances[from][to]);
        StoreInto(st0.distances, DistanceEntries(st0, stopDistances, done),
                  (fromStop.value, toStop.value), stopDistances[from][to]);
      }
    }

    /** The third pass: a loop over the commands adding every bus, left at the first
        unknown stop. */
    method AddBusCommands(catalogue: TransportCatalogue) returns (unknownStop: Option<string>)
      requires catalogue.Valid()
      modifies catalogue
      ensures catalogue.Valid()
      ensures catalogue.State() == AddBuses(old(catalogue.State()), commands).state
      ensures unknownStop == AddBuses(old(catalogue.State()), commands).unknownStop
    {
      ghost var st0 := catalogue.State();
      var i := 0;
      while i < |commands|
        invariant 0 <= i <= |commands|
        invariant catalogue.Valid()
        invariant AddBuses(catalogue.State(), commands[i..]) == AddBuses(st0, commands)
      {
        var command := commands[i];
        assert commands[i..][1..] == commands[i + 1..];
        if command.command == "Bus" {
          var stops := ParseRoute(command.description);
          var isCircular := '>' in command.description;
          if isCircular && |stops| > 0 && stops[0] != stops[|stops| - 1] {
            stops := stops + [stops[0]];
          }
          unknownStop := catalogue.AddBus(command.id, stops, isCircular);
          if unknownStop.Some? {
            return;
          }
        }
        i := i + 1;
      }
      unknownStop := None;
    }
  }
}
