/** The string operations the program takes from Go's `strings` and `strconv`. */
module Text {
  import opened Basics

  // --------------------------------------------------------------- searching

  predicate OccursAt(s: string, pat: string, i: int) {
    0 <= i && i + |pat| <= |s| && s[i..i + |pat|] == pat
  }

  /** The first occurrence of `pat` at or after `from`, or -1. */
  function IndexFrom(s: string, pat: string, from: nat): (r: int)
    ensures r == -1 ==> forall i | from <= i :: !OccursAt(s, pat, i)
    ensures r != -1 ==> from <= r && OccursAt(s, pat, r) && forall i | from <= i < r :: !OccursAt(s, pat, i)
    decreases |s| - from
  {
    if from + |pat| > |s| then -1
    else if OccursAt(s, pat, from) then from
    else IndexFrom(s, pat, from + 1)
  }

  /** `strings.Index`. */
  function Index(s: string, pat: string): (r: int)
    ensures r == -1 ==> forall i :: !OccursAt(s, pat, i)
    ensures r != -1 ==> OccursAt(s, pat, r) && forall i | i < r :: !OccursAt(s, pat, i)
  {
    IndexFrom(s, pat, 0)
  }

  predicate Contains(s: string, pat: string) {
    Index(s, pat) != -1
  }

  predicate HasPrefix(s: string, pat: string) {
    pat <= s
  }

  lemma FirstOccurrence(s: string, pat: string, i: nat)
    requires OccursAt(s, pat, i)
    requires forall j: nat | j < i :: !OccursAt(s, pat, j)
    ensures Index(s, pat) == i
  {
  }

  lemma OccursChar(s: string, pat: string, j: nat, k: nat)
    requires OccursAt(s, pat, j) && k < |pat|
    ensures s[j + k] == pat[k]
  {
    assert s[j..j + |pat|][k] == s[j + k];
  }

  /** What occurs behind `x` occurs in what stands there. */
  lemma OccursShift(x: string, y: string, pat: string, at: nat)
    ensures OccursAt(x + y, pat, |x| + at) <==> OccursAt(y, pat, at)
  {
    if at + |pat| <= |y| {
      assert (x + y)[|x| + at..|x| + at + |pat|] == y[at..at + |pat|];
    }
  }

  /** `pat` starts first at `at` if one of its characters is nowhere earlier. */
  lemma FirstByChar(s: string, pat: string, at: nat, k: nat)
    requires OccursAt(s, pat, at) && k < |pat|
    requires forall m | 0 <= m < at + k :: s[m] != pat[k]
    ensures Index(s, pat) == at
  {
    forall j: nat | OccursAt(s, pat, j)
      ensures j >= at
    {
      OccursChar(s, pat, j, k);
    }
    FirstOccurrence(s, pat, at);
  }

  /** Cutting at the first `c` gives what was put before it. */
  lemma CutAt(x: string, c: char, rest: string)
    requires c !in x
    ensures Index(x + [c] + rest, [c]) == |x|
    ensures (x + [c] + rest)[..|x|] == x
  {
    var s := x + [c] + rest;
    assert s[|x|..|x| + 1] == [c];
    assert forall m | 0 <= m < |x| :: s[m] == x[m] && x[m] in x;
    FirstByChar(s, [c], |x|, 0);
  }

  // ----------------------------------------------------------------- fields

  /** `unicode.IsSpace`. */
  predicate IsSpace(c: char) {
    var n := c as int;
    9 <= n <= 13 || n == 32 || n == 0x85 || n == 0xA0 || n == 0x1680 || 0x2000 <= n <= 0x200A
    || n == 0x2028 || n == 0x2029 || n == 0x202F || n == 0x205F || n == 0x3000
  }

  /** The twenty-five characters of the Unicode property White_Space. */
  const WHITE_SPACE: seq<int> := [
    9, 10, 11, 12, 13, 32, 133, 160, 5760, 8192, 8193, 8194, 8195, 8196, 8197, 8198, 8199, 8200, 8201, 8202,
    8232, 8233, 8239, 8287, 12288]

  lemma SpacesAre(c: char)
    ensures IsSpace(c) <==> c as int in WHITE_SPACE
  {
  }

  predicate IsToken(s: string) {
    s != [] && forall c | c in s :: !IsSpace(c)
  }

  /** Length of the longest prefix that holds no space (`space` false) or only spaces (true). */
  function Span(s: string, space: bool): (n: nat)
    ensures n <= |s|
    ensures forall i | 0 <= i < n :: IsSpace(s[i]) == space
    ensures n < |s| ==> IsSpace(s[n]) != space
  {
    if s == [] || IsSpace(s[0]) != space then 0 else 1 + Span(s[1..], space)
  }

  lemma SpanIs(s: string, space: bool, n: nat)
    requires n <= |s|
    requires forall i | 0 <= i < n :: IsSpace(s[i]) == space
    requires n < |s| ==> IsSpace(s[n]) != space
    ensures Span(s, space) == n
  {
  }

  /** `strings.Fields`. */
  function Fields(s: string): seq<string>
    decreases |s|
  {
    var t := s[Span(s, true)..];
    if t == [] then [] else [t[..Span(t, false)]] + Fields(t[Span(t, false)..])
  }

  function Spaced(tokens: seq<string>): string {
    if tokens == [] then []
    else if |tokens| == 1 then tokens[0]
    else tokens[0] + " " + Spaced(tokens[1..])
  }

  lemma FieldsAfterSpace(s: string)
    ensures Fields(" " + s) == Fields(s)
  {
    assert (" " + s)[1..] == s;
    assert (" " + s)[Span(" " + s, true)..] == s[Span(s, true)..];
  }

  lemma FieldsCons(token: string, rest: string)
    requires IsToken(token)
    requires rest == [] || IsSpace(rest[0])
    ensures Fields(token + rest) == [token] + Fields(rest)
  {
    var s := token + rest;
    assert forall i | 0 <= i < |token| :: s[i] == token[i] && s[i] in token;
    SpanIs(s, true, 0);
    SpanIs(s, false, |token|);
    assert s[0..] == s;
    assert s[..|token|] == token && s[|token|..] == rest;
  }

  /** Splitting a line of tokens on white space gives the tokens back. */
  lemma {:induction false} FieldsOfSpaced(tokens: seq<string>)
    requires forall t | t in tokens :: IsToken(t)
    ensures Fields(Spaced(tokens)) == tokens
  {
    hide Fields;
    if tokens == [] {
      NoFields();
    } else {
      var first, more := tokens[0], tokens[1..];
      assert first in tokens;
      assert tokens == [first] + more;
      if more == [] {
        assert first + [] == first;
        FieldsCons(first, []);
        NoFields();
      } else {
        var rest := Spaced(more);
        assert first + " " + rest == first + (" " + rest);
        FieldsCons(first, " " + rest);
        FieldsAfterSpace(rest);
        FieldsOfSpaced(more);
      }
    }
  }

  lemma NoFields()
    ensures Fields([]) == []
  {
  }

  /** `strings.TrimSpace`. */
  function TrimSpace(s: string): string {
    var t := s[Span(s, true)..];
    TrimRight(t)
  }

  function TrimRight(s: string): string {
    if s != [] && IsSpace(s[|s| - 1]) then TrimRight(s[..|s| - 1]) else s
  }

  lemma {:induction false} TrimRightOf(s: string, blanks: string)
    requires (s == [] || !IsSpace(s[|s| - 1])) && forall c | c in blanks :: IsSpace(c)
    ensures TrimRight(s + blanks) == s
    decreases |blanks|
  {
    var n := |blanks|;
    if n == 0 {
      assert s + blanks == s;
    } else {
      assert (s + blanks)[..|s + blanks| - 1] == s + blanks[..n - 1];
      assert blanks[n - 1] in blanks;
      TrimRightOf(s, blanks[..n - 1]);
    }
  }

  /** What stands between blanks, if it neither starts nor ends with one. */
  lemma TrimSpaceOf(before: string, s: string, after: string)
    requires s != [] && !IsSpace(s[0]) && !IsSpace(s[|s| - 1])
    requires (forall c | c in before :: IsSpace(c)) && (forall c | c in after :: IsSpace(c))
    ensures TrimSpace(before + s + after) == s
  {
    var all := before + s + after;
    assert forall i | 0 <= i < |before| :: all[i] == before[i];
    SpanIs(all, true, |before|);
    assert all[|before|..] == s + after;
    TrimRightOf(s, after);
  }

  // ------------------------------------------------------------------ lines

  /** Offset of the first newline, or the length when there is none. */
  function LineEnd(s: string): (n: nat)
    ensures n <= |s| && forall i | 0 <= i < n :: s[i] != '\n'
    ensures n < |s| ==> s[n] == '\n'
  {
    if s == [] || s[0] == '\n' then 0 else 1 + LineEnd(s[1..])
  }

  lemma LineEndIs(line: string, rest: string)
    requires '\n' !in line && (rest == [] || rest[0] == '\n')
    ensures LineEnd(line + rest) == |line|
  {
    var s := line + rest;
    assert forall i | 0 <= i < |line| :: s[i] == line[i];
    assert rest != [] ==> s[|line|] == '\n';
  }

  /** `strings.Split(s, "\n")`. */
  function SplitLines(s: string): seq<string>
    decreases |s|
  {
    var n := LineEnd(s);
    if n == |s| then [s] else [s[..n]] + SplitLines(s[n + 1..])
  }

  /** Lines, each closed by a newline. */
  function Unlines(lines: seq<string>): string {
    if lines == [] then [] else lines[0] + "\n" + Unlines(lines[1..])
  }

  lemma SplitLinesCons(first: string, rest: string)
    requires '\n' !in first
    ensures SplitLines(first + "\n" + rest) == [first] + SplitLines(rest)
  {
    var s := first + "\n" + rest;
    assert s == first + ("\n" + rest);
    LineEndIs(first, "\n" + rest);
    assert s[..|first|] == first && s[|first| + 1..] == rest;
  }

  lemma {:induction false} SplitLinesOfUnlines(lines: seq<string>)
    requires forall l | l in lines :: '\n' !in l
    ensures SplitLines(Unlines(lines)) == lines + [[]]
  {
    if lines == [] {
      assert SplitLines([]) == [[]];
    } else {
      hide SplitLines;
      assert lines[0] in lines;
      SplitLinesCons(lines[0], Unlines(lines[1..]));
      SplitLinesOfUnlines(lines[1..]);
      assert lines == [lines[0]] + lines[1..];
    }
  }

  lemma {:induction false} UnlinesAppend(xs: seq<string>, ys: seq<string>)
    ensures Unlines(xs + ys) == Unlines(xs) + Unlines(ys)
  {
    if xs == [] {
      assert xs + ys == ys;
    } else {
      assert (xs + ys)[1..] == xs[1..] + ys;
      UnlinesAppend(xs[1..], ys);
    }
  }

  // ---------------------------------------------------------------- numbers

  predicate IsDigit(c: char) {
    48 <= c as int <= 57
  }

  predicate AllDigits(s: string) {
    forall c | c in s :: IsDigit(c)
  }

  function Digit(n: nat): char
    requires n < 10
  {
    (48 + n) as char
  }

  /** `%d` of a natural number. */
  function Decimal(n: nat): (s: string)
    ensures s != [] && AllDigits(s)
  {
    if n < 10 then [Digit(n)] else Decimal(n / 10) + [Digit(n % 10)]
  }

  /** `%d` of any number. */
  function Signed(n: int): string {
    if n < 0 then "-" + Decimal(-n) else Decimal(n)
  }

  function Value(s: string): nat
    requires AllDigits(s)
  {
    if s == [] then 0
    else
      var before := s[..|s| - 1];
      assert IsDigit(s[|s| - 1]);
      10 * Value(before) + (s[|s| - 1] as int - 48)
  }

  lemma {:induction false} ValueOfDecimal(n: nat)
    ensures Value(Decimal(n)) == n
  {
    if n < 10 {
      assert Decimal(n)[..0] == [];
      assert Value([]) == 0;
    } else {
      ValueOfDecimal(n / 10);
      assert Decimal(n)[..|Decimal(n)| - 1] == Decimal(n / 10);
    }
  }

  lemma DecimalWidth(n: nat)
    ensures |Decimal(n)| == 1 <==> n < 10
    ensures |Decimal(n)| == 2 <==> 10 <= n < 100
    ensures |Decimal(n)| == 3 <==> 100 <= n < 1000
  {
  }

  /** `strconv.Atoi`: an optional sign, then digits only, within 64 bits. */
  function Atoi(s: string): Option<int> {
    var body := if s != [] && (s[0] == '+' || s[0] == '-') then s[1..] else s;
    if body == [] || !AllDigits(body) then None
    else
      var v: int := if s[0] == '-' then 0 - Value(body) else Value(body);
      if MIN_INT <= v <= MAX_INT then Some(v) else None
  }

  /** The number `strconv.Atoi` returns even with an error: the nearest bound, or 0 for other text. */
  function AtoiValue(s: string): int {
    var body := if s != [] && (s[0] == '+' || s[0] == '-') then s[1..] else s;
    if body == [] || !AllDigits(body) then 0
    else if s[0] == '-' then (if Value(body) > MAX_INT + 1 then MIN_INT else 0 - Value(body))
    else if Value(body) > MAX_INT then MAX_INT
    else Value(body)
  }

  lemma AtoiOfDecimal(n: nat)
    requires n <= MAX_INT
    ensures Atoi(Decimal(n)) == Some(n)
  {
    assert Decimal(n)[0] in Decimal(n);
    ValueOfDecimal(n);
  }

  /** Signed numbers, within 64 bits. */
  lemma AtoiOfSigned(n: nat)
    ensures Atoi("-" + Decimal(n)) == if n <= MAX_INT + 1 then Some(-(n as int)) else None
    ensures Atoi("+" + Decimal(n)) == Atoi(Decimal(n)) == if n <= MAX_INT then Some(n) else None
    ensures AtoiValue("-" + Decimal(n)) == if n <= MAX_INT + 1 then -(n as int) else MIN_INT
    ensures AtoiValue("+" + Decimal(n)) == AtoiValue(Decimal(n)) == if n <= MAX_INT then n else MAX_INT
  {
    hide Decimal, Value;
    var d := Decimal(n);
    assert d[0] in d && IsDigit(d[0]) && !IsDigit('-') && !IsDigit('+');
    ValueOfDecimal(n);
    AtoiOfBody(d);
  }

  lemma AtoiOfBody(d: string)
    requires d != [] && AllDigits(d) && d[0] != '-' && d[0] != '+'
    ensures Atoi("-" + d) == if Value(d) <= MAX_INT + 1 then Some(-(Value(d) as int)) else None
    ensures Atoi("+" + d) == Atoi(d) == if Value(d) <= MAX_INT then Some(Value(d)) else None
    ensures AtoiValue("-" + d) == if Value(d) <= MAX_INT + 1 then -(Value(d) as int) else MIN_INT
    ensures AtoiValue("+" + d) == AtoiValue(d) == if Value(d) <= MAX_INT then Value(d) else MAX_INT
  {
    hide Value, AllDigits;
    assert ("-" + d)[1..] == d && ("+" + d)[1..] == d;
  }

  lemma DigitsPlain(n: nat)
    ensures '=' !in Decimal(n) && ' ' !in Decimal(n) && '"' !in Decimal(n)
    ensures ':' !in Decimal(n) && ',' !in Decimal(n)
  {
    forall c | c in Decimal(n)
      ensures IsDigit(c)
    {
    }
    assert !IsDigit('=') && !IsDigit(' ') && !IsDigit('"') && !IsDigit(':') && !IsDigit(',');
  }
}
