/**
 The two /1 routes that carry all traffic into the TUN: the Linux and the Windows commands over an
 abstract routing table, and which route longest-prefix match picks.
 */
module Routes {
  import opened Basics

  const ADDRESSES := 0x1_0000_0000

  /** A prefix in canonical form: `base` has no bit set behind the first `len`. */
  datatype Prefix = Prefix(base: nat, len: nat)

  /** How many addresses a prefix of this length covers. */
  function Span(len: nat): nat
    requires len <= 32
  {
    Pow2(32 - len)
  }

  predicate Canonical(p: Prefix) {
    p.len <= 32 && p.base < ADDRESSES && p.base % Span(p.len) == 0
  }

  predicate Covers(p: Prefix, addr: nat) {
    p.len <= 32 && addr / Span(p.len) == p.base / Span(p.len)
  }

  const LOW := Prefix(0, 1)
  const HIGH := Prefix(0x8000_0000, 1)
  const SPLIT := [LOW, HIGH]

  lemma SplitFacts()
    ensures Span(1) == 0x8000_0000 && Canonical(LOW) && Canonical(HIGH)
  {
    assert Pow2(4) == 16;
    assert Pow2(8) == 256;
    assert Pow2(12) == 0x1000;
    assert Pow2(16) == 0x1_0000;
    assert Pow2(20) == 0x10_0000;
    assert Pow2(24) == 0x100_0000;
    assert Pow2(28) == 0x1000_0000;
    assert Pow2(31) == 0x8000_0000;
  }

  /** The two /1 prefixes partition the address space. */
  lemma SplitPartitions(addr: nat)
    requires addr < ADDRESSES
    ensures Covers(LOW, addr) <==> !Covers(HIGH, addr)
  {
    SplitFacts();
  }

  lemma SameLengthSameRoute(p: Prefix, q: Prefix, addr: nat)
    requires Canonical(p) && Canonical(q) && p.len == q.len && Covers(p, addr) && Covers(q, addr)
    ensures p == q
  {
    hide Pow2;
    Multiple(p.base, Span(p.len));
    Multiple(q.base, Span(p.len));
  }

  lemma Multiple(x: nat, n: nat)
    requires n > 0 && x % n == 0
    ensures x == x / n * n
  {
  }

  // ---------------------------------------------------------------------- Linux

  /** The main table, at most one route per prefix, and whether the firewall-mark rule is there. */
  datatype Table = Table(routes: map<Prefix, string>, rule: bool)

  predicate TableOk(t: Table) {
    forall p | p in t.routes :: Canonical(p)
  }

  /** Longest-prefix match picks `p` for `addr`. */
  ghost predicate Picks(routes: map<Prefix, string>, addr: nat, p: Prefix) {
    && p in routes && Covers(p, addr)
    && forall q | q in routes && Covers(q, addr) :: q.len <= p.len
  }

  /** `ip route add`, which fails when the prefix has a route. */
  function Added(t: Table, p: Prefix, dev: string): Option<Table> {
    if p in t.routes then None else Some(t.(routes := t.routes[p := dev]))
  }

  /** `ip route del ... dev`, which deletes a matching route and otherwise fails. */
  function Deleted(t: Table, p: Prefix, dev: string): Table {
    if p in t.routes && t.routes[p] == dev then t.(routes := t.routes - {p}) else t
  }

  /** The state of the kernel the commands change. */
  class Kernel {
    var table: Table

    constructor (table: Table)
      ensures this.table == table
    {
      this.table := table;
    }

    method IpRouteAdd(p: Prefix, dev: string) returns (ok: bool)
      modifies this
      ensures ok <==> Added(old(table), p, dev).Some?
      ensures table == if ok then Added(old(table), p, dev).value else old(table)
    {
      if p in table.routes {
        return false;
      }
      table := table.(routes := table.routes[p := dev]);
      return true;
    }

    method IpRouteDel(p: Prefix, dev: string)
      modifies this
      ensures table == Deleted(old(table), p, dev)
    {
      if p in table.routes && table.routes[p] == dev {
        table := table.(routes := table.routes - {p});
      }
    }

    /** `forwarding` is whether the sysctl succeeds. */
    method AddDefaultRoute(dev: string, forwarding: bool) returns (ok: bool)
      modifies this
      ensures ok <==> LOW !in old(table).routes && HIGH !in old(table).routes && forwarding
      ensures table == AfterAdd(old(table), dev)
    {
      table := table.(rule := true);
      var i := 0;
      while i < |SPLIT|
        invariant 0 <= i <= 2
        invariant i == 0 ==> table == old(table).(rule := true)
        invariant i >= 1 ==> LOW !in old(table).routes
        invariant i == 1 ==> table == old(table).(rule := true, routes := old(table).routes[LOW := dev])
        invariant i == 2 ==> HIGH !in old(table).routes && table == AfterAdd(old(table), dev)
      {
        var added := IpRouteAdd(SPLIT[i], dev);
        if !added {
          return false;
        }
        i := i + 1;
      }
      return forwarding;
    }

    method RemoveDefaultRoute(dev: string)
      modifies this
      ensures table == AfterRemove(old(table), dev)
    {
      IpRouteDel(LOW, dev);
      IpRouteDel(HIGH, dev);
      table := table.(rule := false);
    }
  }

  /** The table `addDefaultRoute` leaves; an early exit keeps what was added before it. */
  function AfterAdd(t: Table, dev: string): Table {
    if LOW in t.routes then t.(rule := true)
    else if HIGH in t.routes then t.(rule := true, routes := t.routes[LOW := dev])
    else t.(rule := true, routes := t.routes[LOW := dev][HIGH := dev])
  }

  function AfterRemove(t: Table, dev: string): Table {
    Deleted(Deleted(t, LOW, dev), HIGH, dev).(rule := false)
  }

  /** Prefix by prefix: what adding leaves, whether it succeeds or stops early. The rule is there in any case. */
  lemma AfterAddExactly(t: Table, dev: string)
    ensures var low, high, u := Prefix(0, 1), Prefix(0x8000_0000, 1), AfterAdd(t, dev);
            && u.rule
            && low in u.routes && u.routes[low] == (if low in t.routes then t.routes[low] else dev)
            && (high in u.routes <==> high in t.routes || low !in t.routes)
            && (high in u.routes ==> u.routes[high] == if high in t.routes then t.routes[high] else dev)
            && (forall p | p != low && p != high :: p in u.routes <==> p in t.routes)
            && (forall p | p != low && p != high && p in t.routes :: u.routes[p] == t.routes[p])
  {
  }

  /** And what removing leaves: all but the two routes of the device, without the rule. */
  lemma AfterRemoveExactly(t: Table, dev: string)
    ensures var low, high, u := Prefix(0, 1), Prefix(0x8000_0000, 1), AfterRemove(t, dev);
            && !u.rule
            && (forall p :: p in u.routes <==> p in t.routes && !((p == low || p == high) && t.routes[p] == dev))
            && (forall p | p in u.routes :: u.routes[p] == t.routes[p])
  {
  }

  /**
   Once both /1 routes lead to `dev`, longest-prefix match takes an address to another device only
   through a route longer than /1, whatever default route there is; and it always takes it somewhere.
   */
  lemma SplitRouteWins(routes: map<Prefix, string>, dev: string, addr: nat, p: Prefix)
    requires addr < ADDRESSES && forall q | q in routes :: Canonical(q)
    requires LOW in routes && HIGH in routes && routes[LOW] == dev && routes[HIGH] == dev
    requires Picks(routes, addr, p)
    ensures p.len > 1 || routes[p] == dev
    ensures (forall q | q in routes && q.len > 1 :: !Covers(q, addr)) ==> routes[p] == dev
  {
    SplitFacts();
    SplitPartitions(addr);
    var half := if Covers(LOW, addr) then LOW else HIGH;
    assert Covers(half, addr);
    if p.len == 1 {
      SameLengthSameRoute(p, half, addr);
    }
  }

  lemma SomeRoutePicked(routes: map<Prefix, string>, addr: nat, todo: set<Prefix>) returns (p: Prefix)
    requires addr < ADDRESSES && forall q | q in routes :: Canonical(q)
    requires todo <= routes.Keys && exists q | q in todo :: Covers(q, addr)
    ensures p in todo && Covers(p, addr) && forall q | q in todo && Covers(q, addr) :: q.len <= p.len
    decreases todo
  {
    p :| p in todo && Covers(p, addr);
    if q :| q in todo && Covers(q, addr) && q.len > p.len {
      p := SomeRoutePicked(routes, addr, todo - {p});
    }
  }

  /** After a successful add, every address is routed, and into the TUN unless a route beyond /1 covers it. */
  lemma TunTakesEverything(t: Table, dev: string, addr: nat) returns (p: Prefix)
    requires TableOk(t) && addr < ADDRESSES
    requires LOW !in t.routes && HIGH !in t.routes
    ensures TableOk(AfterAdd(t, dev)) && Picks(AfterAdd(t, dev).routes, addr, p)
    ensures (forall q | q in t.routes && q.len > 1 :: !Covers(q, addr)) ==> AfterAdd(t, dev).routes[p] == dev
  {
    SplitFacts();
    var routes := AfterAdd(t, dev).routes;
    SplitPartitions(addr);
    assert Covers(LOW, addr) || Covers(HIGH, addr);
    p := SomeRoutePicked(routes, addr, routes.Keys);
    SplitRouteWins(routes, dev, addr, p);
  }

  /** Removing after a successful add restores the routes, and the rule iff it was absent before. */
  lemma RemoveUndoesAdd(t: Table, dev: string)
    requires LOW !in t.routes && HIGH !in t.routes
    ensures AfterRemove(AfterAdd(t, dev), dev).routes == t.routes
    ensures AfterRemove(AfterAdd(t, dev), dev) == t <==> !t.rule
  {
  }

  /** A rule of the user's own is lost. */
  lemma RuleCanBeLost()
    ensures AfterRemove(AfterAdd(Table(map[], true), "tun"), "tun") != Table(map[], true)
  {
    RemoveUndoesAdd(Table(map[], true), "tun");
  }

  /** After a failed add, removing still leaves every route of another device and drops the early one. */
  lemma RemoveAfterFailedAdd(t: Table, dev: string)
    requires LOW in t.routes || HIGH in t.routes
    ensures AfterRemove(AfterAdd(t, dev), dev).routes
         == AfterRemove(t, dev).routes
  {
  }

  // -------------------------------------------------------------------- Windows

  /** One row of the Windows table; `via` stands for gateway, metric and interface. */
  datatype Row = Row(prefix: Prefix, via: string)

  datatype AddResult = AddedRow | AlreadyExists | OtherError

  /**
   `route add` reports "already exists" for a new row that clashes with a present one. What clashes is
   left open, except that clashing rows have the same prefix; `refused` are rows it rejects otherwise.
   */
  datatype Rules = Rules(clash: (Row, Row) -> bool, refused: Row -> bool)

  ghost predicate RulesOk(rules: Rules) {
    forall x, y | rules.clash(x, y) :: x.prefix == y.prefix
  }

  predicate Clashes(rules: Rules, rows: set<Row>, row: Row) {
    exists x | x in rows :: rules.clash(x, row)
  }

  function Without(rows: set<Row>, p: Prefix): set<Row> {
    set x | x in rows && x.prefix != p
  }

  /** One turn of the route loop: add, and on a clash delete the prefix and add again. */
  function AfterRow(rules: Rules, rows: set<Row>, row: Row): set<Row> {
    if rules.refused(row) then rows
    else if Clashes(rules, rows, row) then Without(rows, row.prefix) + {row}
    else rows + {row}
  }

  class WindowsTable {
    var rows: set<Row>
    const rules: Rules

    constructor (rows: set<Row>, rules: Rules)
      ensures this.rows == rows && this.rules == rules
    {
      this.rows, this.rules := rows, rules;
    }

    method RouteAdd(row: Row) returns (r: AddResult)
      modifies this
      ensures r == if rules.refused(row) then OtherError
                   else if Clashes(rules, old(rows), row) then AlreadyExists else AddedRow
      ensures rows == if r == AddedRow then old(rows) + {row} else old(rows)
    {
      if rules.refused(row) {
        return OtherError;
      }
      if Clashes(rules, rows, row) {
        return AlreadyExists;
      }
      rows := rows + {row};
      return AddedRow;
    }

    method RouteDelete(p: Prefix)
      modifies this
      ensures rows == Without(old(rows), p)
    {
      rows := set x | x in rows && x.prefix != p;
    }

    /** The loop over the two /1 routes. */
    method AddRoutes(via: string) returns (ok: bool)
      requires RulesOk(rules)
      modifies this
      ensures ok <==> !rules.refused(Row(LOW, via)) && !rules.refused(Row(HIGH, via))
      ensures rows == AfterRoutes(rules, old(rows), via)
    {
      var i := 0;
      while i < |SPLIT|
        invariant 0 <= i <= 2
        invariant i > 0 ==> !rules.refused(Row(LOW, via))
        invariant i > 1 ==> !rules.refused(Row(HIGH, via))
        invariant i == 0 ==> rows == old(rows)
        invariant i == 1 ==> rows == AfterRow(rules, old(rows), Row(LOW, via))
        invariant i == 2 ==> rows == AfterRoutes(rules, old(rows), via)
      {
        var row := Row(SPLIT[i], via);
        var result := RouteAdd(row);
        if result == AlreadyExists {
          RouteDelete(row.prefix);
          var again := RouteAdd(row);
          if again != AddedRow {
            return false;
          }
        } else if result == OtherError {
          return false;
        }
        i := i + 1;
      }
      return true;
    }

    method RemoveDefaultRoute()
      modifies this
      ensures rows == Without(Without(old(rows), LOW), HIGH)
    {
      RouteDelete(LOW);
      RouteDelete(HIGH);
    }
  }

  function AfterRoutes(rules: Rules, rows: set<Row>, via: string): set<Row> {
    if rules.refused(Row(LOW, via)) then rows
    else AfterRow(rules, AfterRow(rules, rows, Row(LOW, via)), Row(HIGH, via))
  }

  function At(rows: set<Row>, p: Prefix): set<Row> {
    set x | x in rows && x.prefix == p
  }

  /** A stale row survives the loop: one is there beside the new row, and none clashes with it. */
  predicate StaleStays(rules: Rules, rows: set<Row>, row: Row) {
    At(rows, row.prefix) - {row} != {} && !Clashes(rules, rows, row)
  }

  lemma OneRow(rules: Rules, rows: set<Row>, row: Row)
    requires RulesOk(rules) && !rules.refused(row)
    ensures At(AfterRow(rules, rows, row), row.prefix) == {row} <==> !StaleStays(rules, rows, row)
    ensures Without(AfterRow(rules, rows, row), row.prefix) == Without(rows, row.prefix)
    ensures forall p | p != row.prefix :: At(AfterRow(rules, rows, row), p) == At(rows, p)
  {
    var t := AfterRow(rules, rows, row);
    if Clashes(rules, rows, row) {
      assert At(t, row.prefix) == {row};
    } else {
      assert At(t, row.prefix) == At(rows, row.prefix) + {row};
    }
  }

  /**
   A successful loop leaves exactly the two TUN rows for the /1 prefixes iff no stale row fails to clash;
   rows of other prefixes are untouched, and `removeDefaultRoute` afterwards leaves nothing else.
   */
  lemma StaleRoutesRecovered(rules: Rules, rows: set<Row>, via: string)
    requires RulesOk(rules) && !rules.refused(Row(LOW, via)) && !rules.refused(Row(HIGH, via))
    ensures var t := AfterRoutes(rules, rows, via);
            && (At(t, LOW) == {Row(LOW, via)} && At(t, HIGH) == {Row(HIGH, via)}
                <==> !StaleStays(rules, rows, Row(LOW, via)) && !StaleStays(rules, rows, Row(HIGH, via)))
            && Row(LOW, via) in t && Row(HIGH, via) in t
            && (forall p | p != LOW && p != HIGH :: At(t, p) == At(rows, p))
            && Without(Without(t, LOW), HIGH) == Without(Without(rows, LOW), HIGH)
  {
    var low, high := Row(LOW, via), Row(HIGH, via);
    var mid := AfterRow(rules, rows, low);
    OneRow(rules, rows, low);
    OneRow(rules, mid, high);
    assert At(mid, HIGH) == At(rows, HIGH);
    assert Clashes(rules, mid, high) <==> Clashes(rules, rows, high) by {
      assert forall x: Row | x.prefix == HIGH :: x in mid <==> x in At(mid, HIGH);
      assert forall x: Row | x.prefix == HIGH :: x in rows <==> x in At(rows, HIGH);
    }
  }

  /** A refused row ends the loop: rows of its prefix stay as they were, and so do those of the second prefix. */
  lemma RefusedRowsStay(rules: Rules, rows: set<Row>, via: string)
    requires RulesOk(rules)
    ensures var low, high, t := Prefix(0, 1), Prefix(0x8000_0000, 1), AfterRoutes(rules, rows, via);
            && (rules.refused(Row(low, via)) ==> t == rows)
            && (rules.refused(Row(high, via)) ==> At(t, high) == At(rows, high))
            && (!rules.refused(Row(low, via)) ==> Row(low, via) in t)
  {
    var low, high := Row(LOW, via), Row(HIGH, via);
    if !rules.refused(low) {
      OneRow(rules, rows, low);
      if !rules.refused(high) {
        OneRow(rules, AfterRow(rules, rows, low), high);
        assert low in At(AfterRow(rules, rows, low), LOW);
        assert low in At(AfterRoutes(rules, rows, via), LOW);
      }
    }
  }

  /** Rules under which only a row that is there already clashes. */
  const SAME_ROW := Rules((x: Row, y: Row) => x == y, (x: Row) => false)

  /** A stale row with another gateway stays when only an identical row clashes. */
  lemma StaleRowStays()
    ensures RulesOk(SAME_ROW)
    ensures var t := AfterRoutes(SAME_ROW, {Row(LOW, "stale")}, "tun");
            Row(LOW, "stale") in t && Row(LOW, "tun") in t
  {
    var rows := {Row(LOW, "stale")};
    assert !Clashes(SAME_ROW, rows, Row(LOW, "tun"));
    assert Row(LOW, "stale").via != Row(LOW, "tun").via;
    var mid := AfterRow(SAME_ROW, rows, Row(LOW, "tun"));
    assert mid == rows + {Row(LOW, "tun")};
    assert !Clashes(SAME_ROW, mid, Row(HIGH, "tun"));
  }

  /** When rows of one prefix always clash, no stale row can stay. */
  lemma SamePrefixClashes(rules: Rules, rows: set<Row>, row: Row)
    requires forall x, y :: rules.clash(x, y) <==> x.prefix == y.prefix
    ensures !StaleStays(rules, rows, row)
  {
    if x :| x in At(rows, row.prefix) - {row} {
      assert rules.clash(x, row);
    }
  }
}
