/**
 The relay list of the circuit manager: parsing, scoring, ranking. Scores are exact reals; the order of
 equal scores is whatever the sort makes of it.
 */
module Relays {
  import opened Basics
  import opened Text

  datatype Relay = Relay(fingerprint: string, nickname: string, bandwidthKB: int, flags: string, score: real)

  // ------------------------------------------------------------------- parsing

  function ExtractJSON(s: string, start: string, end: string): string {
    var i := Index(s, start);
    if i < 0 then []
    else
      var rest := s[i + |start|..];
      var j := Index(rest, end);
      if j >= 0 then rest[..j] else rest
  }

  /** The value between the first `start` and the `end` next after it. */
  lemma ExtractsFirstValue(before: string, start: string, value: string, end: string, rest: string)
    requires forall i: nat | i < |before| :: !OccursAt(before + start + value + end + rest, start, i)
    requires forall j: nat | j < |value| :: !OccursAt(value + end + rest, end, j)
    ensures ExtractJSON(before + start + value + end + rest, start, end) == value
  {
    var tail := value + end + rest;
    assert before + start + value + end + rest == before + start + tail;
    assert tail[|value|..|value| + |end|] == end;
    FirstOccurrence(tail, end, |value|);
    hide Index, OccursAt;
    ExtractsBehindStart(before, start, tail, end);
  }

  /** Behind the first `start`: up to the first `end`, or everything. */
  lemma ExtractsBehindStart(before: string, start: string, tail: string, end: string)
    requires forall i: nat | i < |before| :: !OccursAt(before + start + tail, start, i)
    ensures ExtractJSON(before + start + tail, start, end)
         == if Index(tail, end) == -1 then tail else tail[..Index(tail, end)]
  {
    var s := before + start + tail;
    assert s[|before|..|before| + |start|] == start;
    FirstOccurrence(s, start, |before|);
    assert s[|before| + |start|..] == tail;
  }

  /** All that follows the first `start` when no `end` does. */
  lemma ExtractsWithoutEnd(before: string, start: string, tail: string, end: string)
    requires forall i: nat | i < |before| :: !OccursAt(before + start + tail, start, i)
    requires forall j: nat :: !OccursAt(tail, end, j)
    ensures ExtractJSON(before + start + tail, start, end) == tail
  {
    ExtractsBehindStart(before, start, tail, end);
  }

  /** Nothing without a `start`. */
  lemma ExtractsWithoutStart(s: string, start: string, end: string)
    requires forall i: nat :: !OccursAt(s, start, i)
    ensures ExtractJSON(s, start, end) == []
  {
  }

  /** Go's division, which truncates towards zero. */
  function TruncDiv(x: int, d: nat): int
    requires d > 0
  {
    if x >= 0 then x / d else 0 - (0 - x) / d
  }

  function RelayOf(line: string): Relay {
    Relay(
      ExtractJSON(line, "\"f\":\"", "\""), ExtractJSON(line, "\"n\":\"", "\""),
      TruncDiv(AtoiValue(TrimSpace(ExtractJSON(line, "\"b\":", ","))), 1024),
      ExtractJSON(line, "\"fl\":[", "]"), 0.0)
  }

  function RelaysOf(lines: seq<string>): seq<Relay> {
    if lines == [] then []
    else
      var before, last := lines[..|lines| - 1], lines[|lines| - 1];
      RelaysOf(before) + if Contains(last, "\"f\":") then [RelayOf(last)] else []
  }

  method ParseOnionooSummary(lines: seq<string>) returns (relays: array<Relay>)
    ensures fresh(relays) && relays[..] == RelaysOf(lines)
  {
    hide RelayOf, Contains;
    var found: seq<Relay> := [];
    for i := 0 to |lines|
      invariant found == RelaysOf(lines[..i])
    {
      assert lines[..i + 1][..i] == lines[..i];
      if !Contains(lines[i], "\"f\":") {
        continue;
      }
      found := found + [RelayOf(lines[i])];
    }
    assert lines[..|lines|] == lines;
    relays := new Relay[|found|](i requires 0 <= i < |found| => found[i]);
  }

  // -------------------------------------------------------------- what a line may hold

  /** One field of a relay object, or anything else between two commas. */
  datatype Field =
    | Fingerprint(value: string)
    | Nickname(value: string)
    | Bandwidth(bytes: int)
    | Flags(value: string)
    | Other(text: string)

  const F_KEY := "\"f\":"
  const N_KEY := "\"n\":"
  const B_KEY := "\"b\":"
  const FL_KEY := "\"fl\":"

  predicate IsKey(key: string) {
    key == F_KEY || key == N_KEY || key == B_KEY || key == FL_KEY
  }

  function KeyOf(f: Field): string {
    match f
    case Fingerprint(_) => F_KEY
    case Nickname(_) => N_KEY
    case Bandwidth(_) => B_KEY
    case Flags(_) => FL_KEY
    case Other(_) => []
  }

  function FieldText(f: Field): string {
    match f
    case Fingerprint(v) => F_KEY + "\"" + v + "\""
    case Nickname(v) => N_KEY + "\"" + v + "\""
    case Bandwidth(n) => B_KEY + Signed(n)
    case Flags(v) => FL_KEY + "[" + v + "]"
    case Other(text) => text
  }

  predicate NoKeys(s: string) {
    !Contains(s, F_KEY) && !Contains(s, N_KEY) && !Contains(s, B_KEY) && !Contains(s, FL_KEY)
  }

  /** Names hold no quote and no colon, flags no closing bracket and no key, other text no key. */
  predicate FieldOk(f: Field) {
    match f
    case Fingerprint(v) => '"' !in v && ':' !in v
    case Nickname(v) => '"' !in v && ':' !in v
    case Bandwidth(_) => true
    case Flags(v) => ']' !in v && NoKeys(v)
    case Other(text) => NoKeys(text)
  }

  /** The fields behind the first. */
  function RestOfLine(fields: seq<Field>): string {
    if fields == [] then "}" else "," + FieldText(fields[0]) + RestOfLine(fields[1..])
  }

  /** An object on a line of its own, its fields in any order. */
  function RelayLine(fields: seq<Field>): string {
    if fields == [] then "{}" else "{" + FieldText(fields[0]) + RestOfLine(fields[1..])
  }

  /** What the code searches for a key, and what it cuts at. */
  function Mark(key: string): string {
    if key == FL_KEY then key + "[" else if key == B_KEY then key else key + "\""
  }

  function EndMark(key: string): string {
    if key == FL_KEY then "]" else if key == B_KEY then "," else "\""
  }

  /** The text of the first field of a key; a bandwidth that closes the object takes the bracket along. */
  function TextOf(fields: seq<Field>, key: string): string {
    if fields == [] then []
    else if KeyOf(fields[0]) != key then TextOf(fields[1..], key)
    else
      match fields[0]
      case Bandwidth(n) => if |fields| == 1 then Signed(n) + "}" else Signed(n)
      case Fingerprint(v) => v
      case Nickname(v) => v
      case Flags(v) => v
      case Other(_) => []
  }

  lemma OccursBefore(x: string, c: char, y: string, pat: string, i: nat)
    requires c !in pat && pat != [] && OccursAt(x + [c] + y, pat, i)
    ensures i <= |x| ==> OccursAt(x, pat, i)
    ensures i > |x| ==> OccursAt(y, pat, i - |x| - 1)
  {
    var s := x + [c] + y;
    if i <= |x| {
      if i + |pat| > |x| {
        OccursChar(s, pat, i, |x| - i);
      }
      assert i + |pat| <= |x| ==> x[i..i + |pat|] == s[i..i + |pat|];
    } else {
      assert y[i - |x| - 1..i - |x| - 1 + |pat|] == s[i..i + |pat|];
    }
  }

  /** A text cut at a character the pattern lacks. */
  lemma ContainsAcross(x: string, c: char, y: string, pat: string)
    requires c !in pat && pat != []
    ensures Contains(x + [c] + y, pat) <==> Contains(x, pat) || Contains(y, pat)
  {
    hide OccursAt;
    var s := x + [c] + y;
    if Contains(s, pat) {
      OccursBefore(x, c, y, pat, Index(s, pat));
    }
    if Contains(x, pat) {
      OccursInPrefix(x, [c] + y, pat, Index(x, pat));
      assert x + ([c] + y) == s;
    }
    if Contains(y, pat) {
      OccursShift(x + [c], y, pat, Index(y, pat));
    }
  }

  lemma OccursInPrefix(x: string, y: string, pat: string, i: nat)
    requires OccursAt(x, pat, i)
    ensures OccursAt(x + y, pat, i)
  {
    assert (x + y)[i..i + |pat|] == x[i..i + |pat|];
  }

  lemma KeyFacts(key: string)
    requires IsKey(key)
    ensures key != [] && ',' !in key && '{' !in key && '}' !in key && '[' !in key && ']' !in key
    ensures |key| >= 4 && key[|key| - 1] == ':' && key[1] != '"' && ':' !in key[..|key| - 1]
    ensures key != FL_KEY ==> |key| == 4
  {
  }

  /** The only colon of a field whose value has none. */
  lemma ColonEndsKey(own: string, value: string)
    requires IsKey(own) && ':' !in value
    ensures forall i | 0 <= i < |own + value| && (own + value)[i] == ':' :: i == |own| - 1
  {
    KeyFacts(own);
    hide IsKey;
    var s := own + value;
    assert forall i | 0 <= i < |own| - 1 :: s[i] == own[..|own| - 1][i];
    assert forall i | |own| <= i < |s| :: s[i] == value[i - |own|] && s[i] in value;
  }

  lemma KeyAtColon(s: string, at: nat, key: string, j: nat)
    requires IsKey(key) && OccursAt(s, key, j) && forall i | 0 <= i < |s| && s[i] == ':' :: i == at
    ensures j + |key| == at + 1 && s[j] == key[0] && s[j + 1] == key[1]
  {
    KeyFacts(key);
    hide IsKey;
    OccursChar(s, key, j, |key| - 1);
    OccursChar(s, key, j, 0);
    OccursChar(s, key, j, 1);
  }

  /** A field whose only colon ends its key contains no other key. */
  lemma OneColon(own: string, value: string, key: string)
    requires IsKey(own) && IsKey(key) && ':' !in value
    ensures Contains(own + value, key) ==> key == own
  {
    KeyFacts(own);
    KeyFacts(key);
    ColonEndsKey(own, value);
    hide IsKey, OccursAt;
    if Contains(own + value, key) {
      KeyAtColon(own + value, |own| - 1, key, Index(own + value, key));
      ShortKey(own, key, Index(own + value, key));
    }
  }

  /** One key is the end of another only if it is that key. */
  lemma ShortKey(own: string, key: string, j: nat)
    requires IsKey(own) && IsKey(key) && j + |key| == |own|
    requires own[j] == key[0] && own[j + 1] == key[1]
    ensures key == own
  {
  }

  lemma FieldHasOwnKey(f: Field, key: string)
    requires FieldOk(f) && IsKey(key) && KeyOf(f) != key
    ensures !Contains(FieldText(f), key)
  {
    hide Contains, Signed;
    match f
    case Fingerprint(v) =>
      OneColon(F_KEY, "\"" + v + "\"", key);
      assert FieldText(f) == F_KEY + ("\"" + v + "\"");
    case Nickname(v) =>
      OneColon(N_KEY, "\"" + v + "\"", key);
      assert FieldText(f) == N_KEY + ("\"" + v + "\"");
    case Bandwidth(n) =>
      SignedPlain(n);
      OneColon(B_KEY, Signed(n), key);
    case Flags(v) => FlagsHaveOwnKey(v, key);
    case Other(_) =>
  }

  lemma FlagsHaveOwnKey(v: string, key: string)
    requires NoKeys(v) && IsKey(key) && key != FL_KEY
    ensures !Contains(FL_KEY + "[" + v + "]", key)
  {
    KeyFacts(key);
    hide Contains;
    OneColon(FL_KEY, "", key);
    assert FL_KEY + "" == FL_KEY;
    assert FL_KEY + "[" + v + "]" == FL_KEY + ['['] + (v + [']'] + "");
    ContainsAcross(FL_KEY, '[', v + [']'] + "", key);
    ContainsAcross(v, ']', "", key);
    NothingInEmpty(key);
  }

  lemma NothingInEmpty(key: string)
    requires key != []
    ensures !Contains("", key)
  {
  }

  lemma MarkStarts(key: string)
    requires IsKey(key)
    ensures key <= Mark(key)
  {
  }

  /** Where the key is nowhere in a text, neither is what the code searches for. */
  lemma NoMark(s: string, key: string)
    requires IsKey(key) && !Contains(s, key)
    ensures !Contains(s, Mark(key))
  {
    MarkStarts(key);
    if Contains(s, Mark(key)) {
      KeyInMark(s, key, Index(s, Mark(key)));
    }
  }

  lemma KeyInMark(s: string, key: string, i: nat)
    requires IsKey(key) && OccursAt(s, Mark(key), i)
    ensures OccursAt(s, key, i)
  {
    MarkStarts(key);
    assert s[i..i + |Mark(key)|][..|key|] == s[i..i + |key|];
  }

  /** The text behind the mark of a field, up to the end of the line. */
  function Behind(f: Field, more: seq<Field>): string {
    match f
    case Fingerprint(v) => v + ['"'] + RestOfLine(more)
    case Nickname(v) => v + ['"'] + RestOfLine(more)
    case Bandwidth(n) => Signed(n) + RestOfLine(more)
    case Flags(v) => v + [']'] + RestOfLine(more)
    case Other(text) => text + RestOfLine(more)
  }

  lemma Regroup(a: string, b: string, c: string, d: string)
    ensures a + b + c + d == a + (b + c + d) && a + b + d == a + (b + d)
  {
  }

  lemma FieldSplits(f: Field, more: seq<Field>)
    requires IsKey(KeyOf(f))
    ensures FieldText(f) + RestOfLine(more) == Mark(KeyOf(f)) + Behind(f, more)
  {
    hide RestOfLine, Signed;
    match f
    case Fingerprint(v) => Regroup(F_KEY + "\"", v, "\"", RestOfLine(more));
    case Nickname(v) => Regroup(N_KEY + "\"", v, "\"", RestOfLine(more));
    case Bandwidth(n) => Regroup(B_KEY, Signed(n), "", RestOfLine(more));
    case Flags(v) => Regroup(FL_KEY + "[", v, "]", RestOfLine(more));
    case Other(_) =>
  }

  lemma CutsValue(f: Field, more: seq<Field>)
    requires IsKey(KeyOf(f)) && FieldOk(f)
    ensures var tail, i := Behind(f, more), Index(Behind(f, more), EndMark(KeyOf(f)));
            (if i == -1 then tail else tail[..i]) == TextOf([f] + more, KeyOf(f))
  {
    hide Index, Signed, RestOfLine;
    match f
    case Fingerprint(v) => CutAt(v, '"', RestOfLine(more));
    case Nickname(v) => CutAt(v, '"', RestOfLine(more));
    case Flags(v) => CutAt(v, ']', RestOfLine(more));
    case Bandwidth(n) => CutsNumber(n, more);
  }

  lemma SignedPlain(n: int)
    ensures ':' !in Signed(n) && ',' !in Signed(n)
  {
    DigitsPlain(if n < 0 then -n else n);
    hide Decimal;
  }

  lemma CutsNumber(n: int, more: seq<Field>)
    ensures var tail, i := Signed(n) + RestOfLine(more), Index(Signed(n) + RestOfLine(more), ",");
            (if i == -1 then tail else tail[..i]) == if more == [] then Signed(n) + "}" else Signed(n)
  {
    SignedPlain(n);
    hide Signed;
    if more == [] {
      NoComma(Signed(n) + "}");
    } else {
      hide Index;
      var rest := FieldText(more[0]) + RestOfLine(more[1..]);
      assert RestOfLine(more) == [','] + rest;
      assert Signed(n) + RestOfLine(more) == Signed(n) + [','] + rest;
      CutAt(Signed(n), ',', rest);
    }
  }

  lemma NoComma(s: string)
    requires ',' !in s
    ensures Index(s, ",") == -1
  {
    if Index(s, ",") != -1 {
      OccursChar(s, ",", Index(s, ","), 0);
    }
  }

  /** A field of the key behind text that lacks it. */
  lemma ReadsHere(before: string, c: char, f: Field, more: seq<Field>, key: string)
    requires IsKey(key) && KeyOf(f) == key && FieldOk(f) && !Contains(before, key) && (c == ',' || c == '{')
    ensures ExtractJSON(before + [c] + FieldText(f) + RestOfLine(more), Mark(key), EndMark(key))
         == TextOf([f] + more, key)
  {
    KeyFacts(key);
    hide Index, FieldText, RestOfLine, Behind, TextOf, Mark, EndMark, OccursAt, FieldOk, IsKey, ExtractJSON, Contains;
    FieldSplits(f, more);
    CutsValue(f, more);
    var start, tail := before + [c], Behind(f, more);
    SamePair(start, FieldText(f), RestOfLine(more), Mark(key), tail);
    forall i: nat | i < |start|
      ensures !OccursAt(start + Mark(key) + tail, Mark(key), i)
    {
      NotEarlier(before, c, Mark(key), tail, key, i);
    }
    ExtractsBehindStart(start, Mark(key), tail, EndMark(key));
  }

  lemma SamePair(x: string, a: string, b: string, c: string, d: string)
    requires a + b == c + d
    ensures x + a + b == x + c + d
  {
    assert x + a + b == x + (a + b);
    assert x + c + d == x + (c + d);
  }

  lemma NotEarlier(before: string, c: char, mark: string, tail: string, key: string, i: nat)
    requires IsKey(key) && mark == Mark(key) && !Contains(before, key) && (c == ',' || c == '{') && i <= |before|
    ensures !OccursAt(before + [c] + mark + tail, mark, i)
  {
    KeyFacts(key);
    hide IsKey, Mark, OccursAt;
    assert before + [c] + mark + tail == before + [c] + (mark + tail);
    if OccursAt(before + [c] + mark + tail, mark, i) {
      KeyInMark(before + [c] + (mark + tail), key, i);
      OccursBefore(before, c, mark + tail, key, i);
    }
  }

  lemma SkipsField(before: string, c: char, f: Field, key: string)
    requires IsKey(key) && KeyOf(f) != key && FieldOk(f) && !Contains(before, key) && (c == ',' || c == '{')
    ensures !Contains(before + [c] + FieldText(f), key)
  {
    KeyFacts(key);
    hide Contains, FieldText, IsKey, FieldOk, KeyOf;
    FieldHasOwnKey(f, key);
    ContainsAcross(before, c, FieldText(f), key);
  }

  /** Behind text that lacks the key, the first field of the key is read; without one, nothing. */
  lemma {:induction false} ReadsFirst(before: string, fields: seq<Field>, key: string)
    requires IsKey(key) && !Contains(before, key) && forall f | f in fields :: FieldOk(f)
    ensures ExtractJSON(before + RestOfLine(fields), Mark(key), EndMark(key)) == TextOf(fields, key)
    ensures Contains(before + RestOfLine(fields), key) <==> exists f | f in fields :: KeyOf(f) == key
    decreases |fields|
  {
    hide ExtractJSON, Contains, FieldText, IsKey, FieldOk, KeyOf, Mark, EndMark;
    if fields == [] {
      NothingLeft(before, key);
    } else {
      var f, more := fields[0], fields[1..];
      assert f in fields && fields == [f] + more;
      assert before + RestOfLine(fields) == before + [','] + FieldText(f) + RestOfLine(more);
      OneFieldMore(before, ',', f, more, key);
      if KeyOf(f) != key {
        SkipsField(before, ',', f, key);
        ReadsFirst(before + [','] + FieldText(f), more, key);
      }
    }
  }

  lemma NothingLeft(before: string, key: string)
    requires IsKey(key) && !Contains(before, key)
    ensures ExtractJSON(before + "}", Mark(key), EndMark(key)) == [] && !Contains(before + "}", key)
  {
    KeyFacts(key);
    assert before + "}" == before + ['}'] + "";
    ContainsAcross(before, '}', "", key);
    NothingInEmpty(key);
    NoMark(before + "}", key);
  }

  lemma OneFieldMore(before: string, c: char, f: Field, more: seq<Field>, key: string)
    requires IsKey(key) && FieldOk(f) && !Contains(before, key) && (c == ',' || c == '{')
    ensures KeyOf(f) == key ==>
              var line := before + [c] + FieldText(f) + RestOfLine(more);
              && ExtractJSON(line, Mark(key), EndMark(key)) == TextOf([f] + more, key) && Contains(line, key)
  {
    if KeyOf(f) == key {
      ReadsHere(before, c, f, more, key);
      KeyFacts(key);
      hide ExtractJSON, TextOf, RestOfLine;
      HasKey(before + [c], f, RestOfLine(more));
    }
  }

  lemma HasKey(before: string, f: Field, rest: string)
    requires IsKey(KeyOf(f))
    ensures Contains(before + FieldText(f) + rest, KeyOf(f))
  {
    var key := KeyOf(f);
    assert key <= FieldText(f);
    assert before + FieldText(f) + rest == before + (FieldText(f) + rest);
    OccursShift(before, FieldText(f) + rest, key, 0);
    assert (FieldText(f) + rest)[0..|key|] == key;
  }

  lemma LineOf(fields: seq<Field>)
    requires fields != []
    ensures RelayLine(fields) == "" + ['{'] + FieldText(fields[0]) + RestOfLine(fields[1..])
  {
    hide FieldText, RestOfLine;
  }

  /** In the whole line as well. */
  lemma ReadsLine(fields: seq<Field>, key: string)
    requires IsKey(key) && forall f | f in fields :: FieldOk(f)
    ensures ExtractJSON(RelayLine(fields), Mark(key), EndMark(key)) == TextOf(fields, key)
    ensures Contains(RelayLine(fields), key) <==> exists f | f in fields :: KeyOf(f) == key
  {
    KeyFacts(key);
    NothingInEmpty(key);
    hide ExtractJSON, Contains, FieldText, IsKey, FieldOk, KeyOf, Mark, EndMark;
    if fields == [] {
      ContainsAcross("", '{', "", key);
      assert "" + ['{'] + "" == "{" && "{" + "}" == "{}";
      NothingLeft("{", key);
    } else {
      var f, more := fields[0], fields[1..];
      assert f in fields && fields == [f] + more;
      LineOf(fields);
      hide RelayLine, RestOfLine;
      OneFieldMore("", '{', f, more, key);
      if KeyOf(f) != key {
        SkipsField("", '{', f, key);
        ReadsFirst("" + ['{'] + FieldText(f), more, key);
      }
    }
  }

  /** Whole KB of a number of bytes, which is first forced into 64 bits, and rounded towards zero. */
  function WholeKB(bytes: int): int {
    var kept := if bytes > MAX_INT then MAX_INT else if bytes < MIN_INT then MIN_INT else bytes;
    if kept < 0 then -(-kept / 1024) else kept / 1024
  }

  /** No blanks around a text that starts with a sign or digit and ends with none. */
  lemma NothingToTrim(s: string)
    requires s != [] && !IsSpace(s[0]) && !IsSpace(s[|s| - 1])
    ensures TrimSpace(s) == s
  {
    SpanIs(s, true, 0);
    assert s[0..] == s;
  }

  lemma SignedEnds(n: int)
    ensures Signed(n) != [] && !IsSpace(Signed(n)[0]) && !IsSpace(Signed(n)[|Signed(n)| - 1])
    ensures IsDigit(Signed(n)[|Signed(n)| - 1])
  {
    var d := Decimal(if n < 0 then -n else n);
    assert d[0] in d && d[|d| - 1] in d;
    hide Decimal;
    assert IsDigit(d[0]) && IsDigit(d[|d| - 1]);
  }

  lemma NumberReadBack(n: int)
    ensures TruncDiv(AtoiValue(TrimSpace(Signed(n))), 1024) == WholeKB(n)
  {
    hide TrimSpace, AtoiValue, Decimal;
    SignedEnds(n);
    NothingToTrim(Signed(n));
    AtoiOfSigned(if n < 0 then -n else n);
  }

  /** Neither nothing nor a number with a bracket behind it is a number. */
  lemma NoNumber(n: int)
    ensures AtoiValue(TrimSpace(Signed(n) + "}")) == 0 && AtoiValue(TrimSpace([])) == 0
  {
    var s := Signed(n) + "}";
    SignedEnds(n);
    assert !IsSpace('}') && !IsDigit('}');
    assert s[0] == Signed(n)[0] && s[|s| - 1] == '}';
    hide Signed;
    NothingToTrim(s);
    hide TrimSpace;
    assert s[1..][|s| - 2] == '}' && '}' in s[1..] && '}' in s;
    assert TrimSpace([]) == [] by { TrimNothing(); }
  }

  lemma TrimNothing()
    ensures TrimSpace([]) == []
  {
  }

  /** The bandwidth read, in whole KB: that of the first such field, unless it closes the object. */
  function BandwidthOf(fields: seq<Field>): int {
    if fields == [] then 0
    else if fields[0].Bandwidth? then (if |fields| == 1 then 0 else WholeKB(fields[0].bytes))
    else BandwidthOf(fields[1..])
  }

  lemma {:induction false} BandwidthRead(fields: seq<Field>)
    requires forall f | f in fields :: FieldOk(f)
    ensures TruncDiv(AtoiValue(TrimSpace(TextOf(fields, B_KEY))), 1024) == BandwidthOf(fields)
  {
    hide AtoiValue, TrimSpace, Signed, Contains, WholeKB;
    NoNumber(0);
    if fields != [] {
      assert fields[0] in fields;
      if fields[0].Bandwidth? {
        NumberReadBack(fields[0].bytes);
        NoNumber(fields[0].bytes);
      } else {
        BandwidthRead(fields[1..]);
      }
    }
  }

  /**
   A relay object is read back for any order of its fields: the first fingerprint, nickname and flags, and the
   bandwidth in whole KB, which is lost, and read as 0, when it closes the object. A line counts as a relay iff
   it has a fingerprint.
   */
  lemma {:induction false} RelayReadBack(fields: seq<Field>)
    requires forall f | f in fields :: FieldOk(f)
    ensures RelayOf(RelayLine(fields))
         == Relay(TextOf(fields, F_KEY), TextOf(fields, N_KEY), BandwidthOf(fields), TextOf(fields, FL_KEY), 0.0)
    ensures Contains(RelayLine(fields), F_KEY) <==> exists f | f in fields :: f.Fingerprint?
  {
    hide ExtractJSON, Contains, AtoiValue, TrimSpace, RelayLine, TextOf, FieldOk;
    ReadsLine(fields, F_KEY);
    ReadsLine(fields, N_KEY);
    ReadsLine(fields, B_KEY);
    ReadsLine(fields, FL_KEY);
    BandwidthRead(fields);
    assert forall f: Field :: KeyOf(f) == F_KEY <==> f.Fingerprint?;
    assert Mark(F_KEY) == "\"f\":\"" && Mark(N_KEY) == "\"n\":\"" && Mark(FL_KEY) == "\"fl\":[";
  }

  /** The places of the lines that count, in order. */
  ghost predicate LinesOfRelays(lines: seq<string>, from: seq<nat>) {
    && (forall i | 0 <= i < |from| :: from[i] < |lines|)
    && (forall i, j | 0 <= i < j < |from| :: from[i] < from[j])
    && (forall k: nat | k < |lines| :: k in from <==> Contains(lines[k], "\"f\":"))
  }

  lemma OneLineMore(before: seq<string>, last: string, from: seq<nat>)
    requires LinesOfRelays(before, from)
    ensures LinesOfRelays(before + [last], if Contains(last, "\"f\":") then from + [|before|] else from)
  {
    hide Contains;
    assert |before| !in from;
    assert forall k | 0 <= k < |before| :: (before + [last])[k] == before[k];
  }

  /** The parsed relays are those of exactly the lines with a fingerprint key, in order. */
  lemma {:induction false} RelaysOfLines(lines: seq<string>) returns (from: seq<nat>)
    ensures LinesOfRelays(lines, from) && |RelaysOf(lines)| == |from|
    ensures forall i | 0 <= i < |from| :: from[i] < |lines| && RelaysOf(lines)[i] == RelayOf(lines[from[i]])
  {
    hide RelayOf, Contains, LinesOfRelays;
    if lines == [] {
      from := [];
      NoLines();
    } else {
      var n := |lines| - 1;
      var before := RelaysOfLines(lines[..n]);
      OneLineMore(lines[..n], lines[n], before);
      assert lines[..n] + [lines[n]] == lines;
      from := if Contains(lines[n], "\"f\":") then before + [n] else before;
    }
  }

  lemma NoLines()
    ensures LinesOfRelays([], [])
  {
  }

  /** A directory of one object to a line is read back: the relays with a fingerprint, in order. */
  lemma {:induction false} DirectoryReadBack(objects: seq<seq<Field>>, lines: seq<string>)
    returns (from: seq<nat>)
    requires |lines| == |objects| && forall k | 0 <= k < |objects| :: lines[k] == RelayLine(objects[k])
    requires forall fields | fields in objects :: forall f | f in fields :: FieldOk(f)
    ensures |RelaysOf(lines)| == |from| && forall i | 0 <= i < |from| :: from[i] < |objects|
    ensures forall i, j | 0 <= i < j < |from| :: from[i] < from[j]
    ensures forall k: nat | k < |objects| :: k in from <==> exists f | f in objects[k] :: f.Fingerprint?
    ensures forall i | 0 <= i < |from| ::
              var fields := objects[from[i]];
              RelaysOf(lines)[i]
              == Relay(TextOf(fields, F_KEY), TextOf(fields, N_KEY), BandwidthOf(fields), TextOf(fields, FL_KEY), 0.0)
  {
    hide RelayOf, Contains, RelayLine, TextOf, FieldOk, RelaysOf;
    from := RelaysOfLines(lines);
    forall k: nat | k < |objects|
      ensures RelayOf(lines[k])
           == Relay(TextOf(objects[k], F_KEY), TextOf(objects[k], N_KEY), BandwidthOf(objects[k]),
                    TextOf(objects[k], FL_KEY), 0.0)
      ensures Contains(lines[k], F_KEY) <==> exists f | f in objects[k] :: f.Fingerprint?
    {
      assert objects[k] in objects;
      RelayReadBack(objects[k]);
    }
  }

  /** A bandwidth of two KB that closes its object is lost. */
  lemma ClosingBandwidthIsLost()
    ensures RelayOf(RelayLine([Fingerprint("A"), Bandwidth(2048)])).bandwidthKB == 0
  {
    var fields := [Fingerprint("A"), Bandwidth(2048)];
    assert fields[1..] == [Bandwidth(2048)];
    hide RelayOf, RelayLine;
    RelayReadBack(fields);
  }

  // ------------------------------------------------------------------- scoring

  function ScoreOf(bandwidthKB: int, flags: string): real {
    var s0 := bandwidthKB as real;
    var s1 := if Contains(flags, "Stable") then s0 * 1.5 else s0;
    var s2 := if Contains(flags, "Fast") then s1 * 1.2 else s1;
    var s3 := if Contains(flags, "Guard") then s2 * 1.1 else s2;
    if Contains(flags, "Exit") then s3 * 0.2 else s3
  }

  /** Words with commas between them. */
  function Commas(words: seq<string>): string {
    if words == [] then []
    else if |words| == 1 then words[0]
    else words[0] + "," + Commas(words[1..])
  }

  predicate SomeHas(words: seq<string>, pat: string) {
    exists w | w in words :: Contains(w, pat)
  }

  lemma {:induction false} ContainsInWords(words: seq<string>, pat: string)
    requires pat != [] && ',' !in pat
    ensures Contains(Commas(words), pat) <==> SomeHas(words, pat)
  {
    hide Contains;
    if words == [] {
      NothingInEmpty(pat);
    } else {
      var first, more := words[0], words[1..];
      assert words == [first] + more;
      if more != [] {
        ContainsInWords(more, pat);
        ContainsAcross(first, ',', Commas(more), pat);
        assert first + "," + Commas(more) == first + [','] + Commas(more);
      } else {
        assert Commas(words) == first;
      }
    }
  }

  /**
   The score is the bandwidth times 1.5, 1.2, 1.1 and 0.2, one factor for each of four flag names that some
   word of the flag list contains, and 1 for each of the others.
   */
  lemma {:induction false} ScoreExactly(bandwidthKB: int, words: seq<string>)
    ensures ScoreOf(bandwidthKB, Commas(words))
         == bandwidthKB as real
            * (if SomeHas(words, "Stable") then 1.5 else 1.0) * (if SomeHas(words, "Fast") then 1.2 else 1.0)
            * (if SomeHas(words, "Guard") then 1.1 else 1.0) * (if SomeHas(words, "Exit") then 0.2 else 1.0)
  {
    hide Contains, SomeHas, Commas;
    ContainsInWords(words, "Stable");
    ContainsInWords(words, "Fast");
    ContainsInWords(words, "Guard");
    ContainsInWords(words, "Exit");
  }

  /** A bad exit counts as an exit. */
  lemma BadExitIsExit(bandwidthKB: int)
    ensures ScoreOf(bandwidthKB, "\"BadExit\"") == bandwidthKB as real * 0.2
  {
    var word := "\"BadExit\"";
    assert word[4..8] == "Exit" && OccursAt(word, "Exit", 4);
    NoLetter(word, "Stable", 0, 'S');
    NoLetter(word, "Fast", 0, 'F');
    NoLetter(word, "Guard", 0, 'G');
    hide Contains;
    assert Contains(word, "Exit");
  }

  lemma NoLetter(s: string, pat: string, k: nat, c: char)
    requires k < |pat| && pat[k] == c && c !in s
    ensures !Contains(s, pat)
  {
    if Contains(s, pat) {
      OccursChar(s, pat, Index(s, pat), k);
    }
  }

  function Scored(r: Relay): Relay {
    r.(score := ScoreOf(r.bandwidthKB, r.flags))
  }

  function ScoredAll(rs: seq<Relay>): seq<Relay> {
    seq(|rs|, i requires 0 <= i < |rs| => Scored(rs[i]))
  }

  method ScoreRelays(relays: array<Relay>)
    modifies relays
    ensures relays[..] == ScoredAll(old(relays[..]))
  {
    hide ScoreOf;
    for i := 0 to relays.Length
      invariant forall k | 0 <= k < i :: relays[k] == Scored(old(relays[k]))
      invariant forall k | i <= k < relays.Length :: relays[k] == old(relays[k])
    {
      var r := relays[i];
      relays[i] := r.(score := ScoreOf(r.bandwidthKB, r.flags));
    }
  }

  /** With the same flags, more bandwidth never scores lower. */
  lemma ScoreMonotone(b1: int, b2: int, flags: string)
    requires b1 <= b2
    ensures ScoreOf(b1, flags) <= ScoreOf(b2, flags)
  {
    hide Contains;
  }

  /**
   At equal positive bandwidth every Exit relay, with whatever bonuses, ranks below every relay without
   that flag: it scores at most 0.396 of the bandwidth, the other at least the bandwidth.
   */
  lemma ExitRanksBelow(b: int, exitFlags: string, otherFlags: string)
    requires b > 0 && Contains(exitFlags, "Exit") && !Contains(otherFlags, "Exit")
    ensures ScoreOf(b, exitFlags) <= 0.396 * b as real < b as real <= ScoreOf(b, otherFlags)
    ensures Contains(exitFlags, "Stable") && Contains(exitFlags, "Fast") && Contains(exitFlags, "Guard")
       <==> ScoreOf(b, exitFlags) == 0.396 * b as real
  {
    hide Contains;
  }

  // ------------------------------------------------------------------- ranking

  predicate Descending(rs: seq<Relay>) {
    forall i, j | 0 <= i < j < |rs| :: rs[i].score >= rs[j].score
  }

  /** `stored` is `relays`, reordered by descending score. */
  predicate IsRanking(relays: seq<Relay>, stored: seq<Relay>) {
    multiset(stored) == multiset(relays) && Descending(stored)
  }

  /** Where `r` goes in a descending list. */
  function Place(r: Relay, rs: seq<Relay>): (k: nat)
    ensures k <= |rs|
    ensures forall i | 0 <= i < k :: rs[i].score >= r.score
    ensures k < |rs| ==> rs[k].score < r.score
  {
    if rs == [] || rs[0].score < r.score then 0 else 1 + Place(r, rs[1..])
  }

  lemma InsertDescending(sorted: seq<Relay>, r: Relay)
    requires Descending(sorted)
    ensures var k := Place(r, sorted); Descending(sorted[..k] + [r] + sorted[k..])
  {
    var k := Place(r, sorted);
    hide Place;
    var t := sorted[..k] + [r] + sorted[k..];
    assert forall i | 0 <= i < k :: t[i] == sorted[i];
    assert forall j | k < j < |t| :: t[j] == sorted[j - 1];
    assert k < |sorted| ==> forall j | k <= j < |sorted| :: sorted[j].score <= sorted[k].score;
  }

  lemma InsertKeepsRanking(relays: seq<Relay>, sorted: seq<Relay>, r: Relay)
    requires IsRanking(relays, sorted)
    ensures var k := Place(r, sorted);
            IsRanking(relays + [r], sorted[..k] + [r] + sorted[k..])
  {
    hide Place, Descending;
    var k := Place(r, sorted);
    InsertDescending(sorted, r);
    assert sorted == sorted[..k] + sorted[k..];
    assert multiset(sorted) == multiset(sorted[..k]) + multiset(sorted[k..]);
  }

  /** Stands for the library sort, of which only this contract is used. */
  method SortByScore(relays: seq<Relay>) returns (sorted: seq<Relay>)
    ensures IsRanking(relays, sorted)
  {
    hide IsRanking;
    sorted := [];
    EmptyRanking();
    assert relays[..0] == [];
    for i := 0 to |relays|
      invariant IsRanking(relays[..i], sorted)
    {
      InsertKeepsRanking(relays[..i], sorted, relays[i]);
      assert relays[..i + 1] == relays[..i] + [relays[i]];
      var k := Place(relays[i], sorted);
      sorted := sorted[..k] + [relays[i]] + sorted[k..];
    }
    assert relays[..|relays|] == relays;
  }

  lemma EmptyRanking()
    ensures IsRanking([], [])
  {
  }

  class Manager {
    var relays: seq<Relay>

    constructor ()
      ensures relays == []
    {
      relays := [];
    }

    /** `lines` is the body of the directory's answer, or `None` when the request failed. */
    method RefreshRelays(lines: Option<seq<string>>) returns (ok: bool)
      modifies this
      ensures ok <==> lines.Some?
      ensures if ok then IsRanking(ScoredAll(RelaysOf(lines.value)), relays) else relays == old(relays)
    {
      if lines.None? {
        return false;
      }
      var parsed := ParseOnionooSummary(lines.value);
      ScoreRelays(parsed);
      var scored := SortByScore(parsed[..]);
      relays := scored;
      return true;
    }

    /** A negative `n` makes Go panic when it sizes the result. */
    method TopRelays(n: int) returns (result: seq<Relay>)
      requires 0 <= n
      ensures result == relays[..if n < |relays| then n else |relays|]
    {
      result := [];
      for i := 0 to |relays|
        invariant i <= n && result == relays[..i]
      {
        if i >= n {
          break;
        }
        result := result + [relays[i]];
      }
    }
  }

  /** The first n of a ranking: as many as asked for or all, and none left out scores higher than one taken. */
  lemma TopAreBest(relays: seq<Relay>, stored: seq<Relay>, n: nat)
    requires IsRanking(relays, stored)
    ensures var top := stored[..if n < |stored| then n else |stored|];
            && |top| == (if n < |relays| then n else |relays|)
            && multiset(top) <= multiset(relays)
            && forall x, y | x in top && y in multiset(relays) - multiset(top) :: y.score <= x.score
  {
    hide Descending;
    var k := if n < |stored| then n else |stored|;
    var top, left := stored[..k], stored[k..];
    assert stored == top + left;
    assert multiset(stored) == multiset(top) + multiset(left);
    assert |multiset(stored)| == |stored| && |multiset(relays)| == |relays|;
    assert multiset(relays) - multiset(top) == multiset(left);
    TopAbove(stored, k);
  }

  lemma TopAbove(stored: seq<Relay>, k: nat)
    requires Descending(stored) && k <= |stored|
    ensures forall x, y | x in stored[..k] && y in stored[k..] :: y.score <= x.score
  {
    forall x, y | x in stored[..k] && y in stored[k..]
      ensures y.score <= x.score
    {
      var i :| 0 <= i < k && stored[..k][i] == x;
      var j :| 0 <= j < |stored| - k && stored[k..][j] == y;
      assert stored[i] == x && stored[k + j] == y;
    }
  }

  function Total(rs: seq<Relay>): real {
    if rs == [] then 0.0 else Total(rs[..|rs| - 1]) + rs[|rs| - 1].score
  }

  /** Distinct positions of the stored list, in order. */
  predicate Selection(chosen: seq<nat>, stored: seq<Relay>) {
    && (forall i | 0 <= i < |chosen| :: chosen[i] < |stored|)
    && (forall i, j | 0 <= i < j < |chosen| :: chosen[i] < chosen[j])
  }

  function Chosen(chosen: seq<nat>, stored: seq<Relay>): seq<Relay>
    requires Selection(chosen, stored)
  {
    seq(|chosen|, i requires 0 <= i < |chosen| => stored[chosen[i]])
  }

  /** No other choice of as many relays has a higher total score. */
  lemma {:induction false} TopTotalIsHighest(stored: seq<Relay>, chosen: seq<nat>)
    requires Descending(stored) && Selection(chosen, stored)
    ensures |chosen| <= |stored| && Total(Chosen(chosen, stored)) <= Total(stored[..|chosen|])
  {
    if chosen != [] {
      var n := |chosen| - 1;
      TopTotalIsHighest(stored, chosen[..n]);
      PositionsGrow(chosen, stored, n);
      assert Chosen(chosen, stored)[..n] == Chosen(chosen[..n], stored);
      assert stored[..|chosen|][..n] == stored[..n];
      assert n < chosen[n] ==> stored[n].score >= stored[chosen[n]].score;
    }
  }

  lemma {:induction false} PositionsGrow(chosen: seq<nat>, stored: seq<Relay>, i: nat)
    requires Selection(chosen, stored) && i < |chosen|
    ensures i <= chosen[i]
  {
    if i > 0 {
      PositionsGrow(chosen, stored, i - 1);
    }
  }
}
