/** Character classes, searches, lexicographic order and decimal numerals of the C++
    standard library as the source uses them (std::isspace & co. in the "C" locale,
    std::string::find, std::set<std::string> order, std::stoi and operator<< on int). */
module Text {
  import opened Wrappers

  /** The range of a C++ `int`. */
  const MinInt: int := -0x8000_0000
  const MaxInt: int := 0x7fff_ffff
  type Int32 = x: int | MinInt <= x <= MaxInt

  /** std::isspace: blank, tab, newline, vertical tab, form feed, carriage return. */
  predicate IsSpace(c: char) {
    c == ' ' || c == '\t' || c == '\n' || c == '\U{000B}' || c == '\U{000C}' || c == '\r'
  }

  predicate IsDigit(c: char) { '0' <= c <= '9' }

  predicate IsAlpha(c: char) { ('a' <= c <= 'z') || ('A' <= c <= 'Z') }

  predicate IsAlnum(c: char) { IsAlpha(c) || IsDigit(c) }

  predicate AllAre(s: string, c: char) { forall k :: 0 <= k < |s| ==> s[k] == c }

  // ---------------------------------------------------------------------------
  // Searches. The C++ sentinel npos is |s|: every comparison the source makes
  // against a found position gives the same answer for npos and for |s|.

  /** std::string_view::find(c, from). */
  function Find(s: string, c: char, from: nat): (r: nat)
    ensures r <= |s|
    ensures r < |s| ==> from <= r && s[r] == c
    decreases |s| - from
  {
    if from >= |s| then |s|
    else if s[from] == c then from
    else Find(s, c, from + 1)
  }

  /** std::string_view::find_first_not_of(c, from). */
  function FindNot(s: string, c: char, from: nat): (r: nat)
    ensures r <= |s|
    ensures r < |s| ==> from <= r && s[r] != c
    decreases |s| - from
  {
    if from >= |s| then |s|
    else if s[from] != c then from
    else FindNot(s, c, from + 1)
  }

  /** One past std::string_view::find_last_not_of(c); 0 when every character is c. */
  function EndNot(s: string, c: char): (r: nat)
    ensures r <= |s|
    ensures r > 0 ==> s[r - 1] != c
  {
    EndNotBefore(s, c, |s|)
  }

  /** One past the last character other than c among the first n. */
  function EndNotBefore(s: string, c: char, n: nat): (r: nat)
    requires n <= |s|
    ensures r <= n
    ensures r > 0 ==> s[r - 1] != c
  {
    if n == 0 then 0
    else if s[n - 1] != c then n
    else EndNotBefore(s, c, n - 1)
  }

  /** Find passes over no occurrence of c. */
  lemma {:induction false} FindSkips(s: string, c: char, from: nat)
    ensures forall k :: from <= k < Find(s, c, from) ==> s[k] != c
    decreases |s| - from
  {
    if from < |s| && s[from] != c { FindSkips(s, c, from + 1); }
  }

  /** FindNot passes over nothing but c. */
  lemma {:induction false} FindNotSkips(s: string, c: char, from: nat)
    ensures forall k :: from <= k < FindNot(s, c, from) ==> s[k] == c
    decreases |s| - from
  {
    if from < |s| && s[from] == c { FindNotSkips(s, c, from + 1); }
  }

  /** Everything after EndNot is c. */
  lemma EndNotSkips(s: string, c: char)
    ensures forall k :: EndNot(s, c) <= k < |s| ==> s[k] == c
  {
    EndNotBeforeSkips(s, c, |s|);
  }

  lemma {:induction false} EndNotBeforeSkips(s: string, c: char, n: nat)
    requires n <= |s|
    ensures forall k :: EndNotBefore(s, c, n) <= k < n ==> s[k] == c
  {
    if n > 0 && s[n - 1] == c { EndNotBeforeSkips(s, c, n - 1); }
  }

  /** A character other than c at p comes before the trailing run of c below n. */
  lemma EndNotPast(s: string, c: char, p: nat, n: nat)
    requires p < n <= |s| && s[p] != c
    ensures p < EndNotBefore(s, c, n)
  {
    EndNotBeforeSkips(s, c, n);
  }

  /** A character other than c comes before the trailing run of c. */
  lemma FindNotBeforeEnd(s: string, c: char)
    requires FindNot(s, c, 0) < |s|
    ensures FindNot(s, c, 0) < EndNot(s, c)
  {
    EndNotSkips(s, c);
  }

  /** The searches are determined by what they skip and where they stop: these state
      the result outright. */
  lemma {:induction false} FindIs(s: string, c: char, from: nat, r: nat)
    requires from <= r <= |s|
    requires forall k :: from <= k < r ==> s[k] != c
    requires r < |s| ==> s[r] == c
    ensures Find(s, c, from) == r
    decreases r - from
  {
    if from < r { FindIs(s, c, from + 1, r); }
  }

  lemma {:induction false} FindNotIs(s: string, c: char, from: nat, r: nat)
    requires from <= r <= |s|
    requires forall k :: from <= k < r ==> s[k] == c
    requires r < |s| ==> s[r] != c
    ensures FindNot(s, c, from) == r
    decreases r - from
  {
    if from < r { FindNotIs(s, c, from + 1, r); }
  }

  lemma EndNotIs(s: string, c: char, r: nat)
    requires r <= |s|
    requires r > 0 ==> s[r - 1] != c
    requires forall k :: r <= k < |s| ==> s[k] == c
    ensures EndNot(s, c) == r
  {
    EndNotBeforeIs(s, c, |s|, r);
  }

  lemma {:induction false} EndNotBeforeIs(s: string, c: char, n: nat, r: nat)
    requires r <= n <= |s|
    requires r > 0 ==> s[r - 1] != c
    requires forall k :: r <= k < n ==> s[k] == c
    ensures EndNotBefore(s, c, n) == r
  {
    if r < n { EndNotBeforeIs(s, c, n - 1, r); }
  }

  /** Index of the first character at or after `from` that is not std::isspace. */
  function SkipSpace(s: string, from: nat): (r: nat)
    ensures from <= r || r == |s|
    ensures r <= |s|
    ensures r < |s| ==> !IsSpace(s[r])
    decreases |s| - from
  {
    if from >= |s| then |s|
    else if !IsSpace(s[from]) then from
    else SkipSpace(s, from + 1)
  }

  /** SkipSpace passes over nothing but white space. */
  lemma {:induction false} SkipSpaceSkips(s: string, from: nat)
    ensures forall k :: from <= k < SkipSpace(s, from) ==> IsSpace(s[k])
    decreases |s| - from
  {
    if from < |s| && IsSpace(s[from]) { SkipSpaceSkips(s, from + 1); }
  }

  lemma SkipSpaceOver(s: string, from: nat, to: nat)
    requires from <= to <= |s|
    requires forall k :: from <= k < to ==> IsSpace(s[k])
    ensures SkipSpace(s, from) == SkipSpace(s, to)
    decreases |s| - from
  {
    if from < to { SkipSpaceOver(s, from + 1, to); }
  }

  function Spaces(n: nat): (r: string)
    ensures |r| == n && AllAre(r, ' ')
  {
    if n == 0 then [] else Spaces(n - 1) + [' ']
  }

  // ---------------------------------------------------------------------------
  // Lexicographic order of std::string (the order of std::set<std::string> and
  // std::map<std::string, _>).

  predicate Less(a: string, b: string)
    decreases |a|
  {
    if |a| == 0 then |b| > 0
    else if |b| == 0 then false
    else a[0] < b[0] || (a[0] == b[0] && Less(a[1..], b[1..]))
  }

  lemma {:induction false} LessIrreflexive(a: string)
    ensures !Less(a, a)
    decreases |a|
  {
    if |a| > 0 { LessIrreflexive(a[1..]); }
  }

  lemma {:induction false} LessTransitive(a: string, b: string, c: string)
    requires Less(a, b) && Less(b, c)
    ensures Less(a, c)
    decreases |a|
  {
    if |a| > 0 && |b| > 0 && |c| > 0 && a[0] == b[0] && b[0] == c[0] {
      LessTransitive(a[1..], b[1..], c[1..]);
    }
  }

  lemma {:induction false} LessTotal(a: string, b: string)
    requires a != b
    ensures Less(a, b) || Less(b, a)
    decreases |a|
  {
    if |a| > 0 && |b| > 0 && a[0] == b[0] {
      assert a == [a[0]] + a[1..] && b == [b[0]] + b[1..];
      LessTotal(a[1..], b[1..]);
    }
  }

  lemma {:induction false} LessAsymmetric(a: string, b: string)
    requires Less(a, b)
    ensures !Less(b, a)
  {
    if Less(b, a) {
      LessTransitive(a, b, a);
      LessIrreflexive(a);
    }
  }

  predicate IsLeast(m: string, s: set<string>) {
    m in s && forall x :: x in s && x != m ==> Less(m, x)
  }

  lemma {:induction false} LeastExists(s: set<string>)
    requires s != {}
    ensures exists m :: IsLeast(m, s)
    decreases |s|
  {
    var x :| x in s;
    if s - {x} == {} {
      assert s == {x};
      assert IsLeast(x, s);
    } else {
      LeastExists(s - {x});
      var m :| IsLeast(m, s - {x});
      if Less(x, m) {
        forall y | y in s && y != x ensures Less(x, y) {
          if y != m { LessTransitive(x, m, y); }
        }
        assert IsLeast(x, s);
      } else {
        LessTotal(x, m);
        assert IsLeast(m, s);
      }
    }
  }

  lemma LeastUnique(m1: string, m2: string, s: set<string>)
    requires IsLeast(m1, s) && IsLeast(m2, s)
    ensures m1 == m2
  {
    if m1 != m2 { LessAsymmetric(m1, m2); }
  }

  ghost function Least(s: set<string>): (m: string)
    requires s != {}
    ensures IsLeast(m, s)
  {
    LeastExists(s);
    var m :| IsLeast(m, s); m
  }

  ghost predicate StrictlySorted(xs: seq<string>) {
    forall i, j :: 0 <= i < j < |xs| ==> Less(xs[i], xs[j])
  }

  /** The elements of a set of strings in the order a std::set<std::string> visits them. */
  ghost function SortedList(s: set<string>): (r: seq<string>)
    ensures |r| == |s|
    ensures forall x :: x in r <==> x in s
    ensures StrictlySorted(r)
    decreases |s|
  {
    if s == {} then []
    else
      var m := Least(s);
      var rest := SortedList(s - {m});
      assert forall i :: 0 <= i < |rest| ==> rest[i] in s - {m};
      [m] + rest
  }

  /** The sorted listing starts with the least element, then lists the others. */
  lemma SortedListFirst(s: set<string>, m: string)
    requires IsLeast(m, s)
    ensures SortedList(s) == [m] + SortedList(s - {m})
  {
    LeastUnique(m, Least(s), s);
  }

  // ---------------------------------------------------------------------------
  // Decimal numerals.

  function DigitChar(d: nat): char
    requires d < 10
  {
    "0123456789"[d]
  }

  function DigitValue(c: char): nat
    requires IsDigit(c)
  {
    (c as int - '0' as int) as nat
  }

  /** Value of a run of decimal digits, most significant first. */
  function DigitsValue(ds: string): nat
    requires forall k :: 0 <= k < |ds| ==> IsDigit(ds[k])
  {
    if |ds| == 0 then 0 else DigitsValue(ds[..|ds| - 1]) * 10 + DigitValue(ds[|ds| - 1])
  }

  /** operator<< on a non-negative integer. */
  function NatToString(n: nat): (r: string)
    ensures |r| > 0
    ensures forall k :: 0 <= k < |r| ==> IsDigit(r[k])
  {
    if n < 10 then [DigitChar(n)] else NatToString(n / 10) + [DigitChar(n % 10)]
  }

  /** operator<< on an int. */
  function IntToString(i: int): (r: string)
  {
    if i < 0 then "-" + NatToString(-i) else NatToString(i)
  }

  lemma {:induction false} NatToStringValue(n: nat)
    ensures DigitsValue(NatToString(n)) == n
  {
    var r := NatToString(n);
    if n >= 10 {
      NatToStringValue(n / 10);
      assert r[..|r| - 1] == NatToString(n / 10);
    }
  }

  /** Length of the run of digits starting at `from`. */
  function DigitRun(s: string, from: nat): (r: nat)
    requires from <= |s|
    ensures from + r <= |s|
    ensures from + r < |s| ==> !IsDigit(s[from + r])
    decreases |s| - from
  {
    if from == |s| || !IsDigit(s[from]) then 0 else 1 + DigitRun(s, from + 1)
  }

  /** DigitRun passes over nothing but digits. */
  lemma {:induction false} DigitRunDigits(s: string, from: nat)
    requires from <= |s|
    ensures forall k :: from <= k < from + DigitRun(s, from) ==> IsDigit(s[k])
    decreases |s| - from
  {
    if from < |s| && IsDigit(s[from]) { DigitRunDigits(s, from + 1); }
  }

  /** std::stoi(s, &pos): leading white space, an optional sign, then at least one digit;
      the value must fit an int. None stands for the std::invalid_argument and
      std::out_of_range exceptions; Some((value, pos)) gives the characters consumed. */
  function ParseInt(s: string): (r: Option<(Int32, nat)>)
    ensures r.Some? ==> 0 < r.value.1 <= |s| && IsDigit(s[r.value.1 - 1])
    ensures r.Some? ==> r.value.1 == |s| || !IsDigit(s[r.value.1])
  {
    var start := SkipSpace(s, 0);
    var negative := start < |s| && s[start] == '-';
    var digitsAt := if start < |s| && (s[start] == '-' || s[start] == '+') then start + 1 else start;
    SignedNumeral(s, digitsAt, negative)
  }

  /** The numeral of std::stoi once the sign is read: the run of digits at `digitsAt`,
      negated when the sign was '-'. */
  function SignedNumeral(s: string, digitsAt: nat, negative: bool): (r: Option<(Int32, nat)>)
    requires digitsAt <= |s|
    ensures r.Some? ==> 0 < r.value.1 <= |s| && IsDigit(s[r.value.1 - 1])
    ensures r.Some? ==> r.value.1 == |s| || !IsDigit(s[r.value.1])
  {
    var n := DigitRun(s, digitsAt);
    if n == 0 then None
    else
      DigitRunDigits(s, digitsAt);
      var magnitude := DigitsValue(s[digitsAt..digitsAt + n]);
      var value: int := if negative then 0 - (magnitude as int) else magnitude;
      if MinInt <= value <= MaxInt then Some((value, digitsAt + n)) else None
  }

  lemma {:induction false} DigitRunOf(ds: string, t: string, k: nat)
    requires k <= |ds|
    requires forall k :: 0 <= k < |ds| ==> IsDigit(ds[k])
    requires |t| == 0 || !IsDigit(t[0])
    ensures DigitRun(ds + t, k) == |ds| - k
    decreases |ds| - k
  {
    if k < |ds| {
      assert (ds + t)[k] == ds[k];
      DigitRunOf(ds, t, k + 1);
    } else if |t| > 0 {
      assert (ds + t)[k] == t[0];
    }
  }

  /** std::stoi reads back exactly what operator<< wrote, and stops where the numeral ends. */
  lemma IntRoundTrip(i: Int32, t: string)
    requires |t| == 0 || !IsDigit(t[0])
    ensures ParseInt(IntToString(i) + t) == Some((i, |IntToString(i)|))
  {
    if i < 0 {
      var m: nat := 0 - (i as int);
      NegRoundTrip(m, t);
    } else {
      NonNegRoundTrip(i, t);
    }
  }

  lemma NonNegRoundTrip(n: nat, t: string)
    requires n <= MaxInt
    requires |t| == 0 || !IsDigit(t[0])
    ensures ParseInt(NatToString(n) + t) == Some((n as Int32, |NatToString(n)|))
  {
    var ds := NatToString(n);
    var s := ds + t;
    assert s[0] == ds[0];
    assert SkipSpace(s, 0) == 0;
    DigitRunOf(ds, t, 0);
    assert s[0..|ds|] == ds;
    NatToStringValue(n);
  }

  lemma NegRoundTrip(m: nat, t: string)
    requires 0 < m <= -MinInt
    requires |t| == 0 || !IsDigit(t[0])
    ensures ParseInt("-" + NatToString(m) + t) == Some(((0 - m) as Int32, 1 + |NatToString(m)|))
  {
    var ds := NatToString(m);
    var s := "-" + ds + t;
    assert s == ['-'] + (ds + t);
    assert SkipSpace(s, 0) == 0 && s[0] == '-';
    assert ParseInt(s) == SignedNumeral(s, 1, true);
    NegNumeral(m, t);
  }

  lemma NegNumeral(m: nat, t: string)
    requires 0 < m <= -MinInt
    requires |t| == 0 || !IsDigit(t[0])
    ensures SignedNumeral("-" + NatToString(m) + t, 1, true) == Some(((0 - m) as Int32, 1 + |NatToString(m)|))
  {
    var ds := NatToString(m);
    SignedDigits(ds, t);
    NatToStringValue(m);
  }

  /** After a minus sign, the digits `ds` form the whole run of digits. */
  lemma SignedDigits(ds: string, t: string)
    requires forall k :: 0 <= k < |ds| ==> IsDigit(ds[k])
    requires |t| == 0 || !IsDigit(t[0])
    ensures ("-" + ds + t)[1..1 + |ds|] == ds
    ensures DigitRun("-" + ds + t, 1) == |ds|
  {
    var s := "-" + ds + t;
    assert s == ['-'] + (ds + t);
    DigitRunOf(ds, t, 0);
    DigitRunShift(ds + t, 0, '-');
  }

  lemma DigitRunShift(s: string, k: nat, c: char)
    requires k <= |s|
    ensures DigitRun([c] + s, k + 1) == DigitRun(s, k)
    decreases |s| - k
  {
    if k < |s| && IsDigit(s[k]) { DigitRunShift(s, k + 1, c); }
  }

  lemma SkipSpaceShift(s: string, k: nat, c: char)
    requires k <= |s|
    ensures SkipSpace([c] + s, k + 1) == SkipSpace(s, k) + 1
    decreases |s| - k
  {
    if k < |s| && IsSpace(s[k]) { SkipSpaceShift(s, k + 1, c); }
  }

  lemma SignedNumeralShift(s: string, digitsAt: nat, negative: bool, v: Int32, n: nat)
    requires digitsAt <= |s|
    requires SignedNumeral(s, digitsAt, negative) == Some((v, n))
    ensures SignedNumeral([' '] + s, digitsAt + 1, negative) == Some((v, n + 1))
  {
    DigitRunShift(s, digitsAt, ' ');
    var run := DigitRun(s, digitsAt);
    assert ([' '] + s)[digitsAt + 1..digitsAt + 1 + run] == s[digitsAt..digitsAt + run];
  }

  /** std::stoi skips leading white space: one more blank in front changes nothing but
      the count of characters consumed. */
  lemma ParseIntSkipsSpace(s: string, v: Int32, n: nat)
    requires ParseInt(s) == Some((v, n))
    ensures ParseInt([' '] + s) == Some((v, n + 1))
  {
    var t := [' '] + s;
    var start := SkipSpace(s, 0);
    var negative := start < |s| && s[start] == '-';
    var digitsAt := if start < |s| && (s[start] == '-' || s[start] == '+') then start + 1 else start;
    ParseIntVia(s, start, negative, digitsAt);
    SkipSpaceShift(s, 0, ' ');
    assert start < |s| ==> t[start + 1] == s[start];
    ParseIntVia(t, start + 1, negative, digitsAt + 1);
    SignedNumeralShift(s, digitsAt, negative, v, n);
  }

  lemma ParseIntVia(s: string, start: nat, negative: bool, digitsAt: nat)
    requires start == SkipSpace(s, 0)
    requires negative == (start < |s| && s[start] == '-')
    requires digitsAt == if start < |s| && (s[start] == '-' || s[start] == '+') then start + 1 else start
    ensures digitsAt <= |s| && ParseInt(s) == SignedNumeral(s, digitsAt, negative)
  {
  }
}
