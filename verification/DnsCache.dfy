/** The TTL cache of the resolver and its periodic purge. Clock readings are nanoseconds. */
module DnsCache {
  import opened Basics
  import opened DnsWire

  datatype Entry = Entry(addrs: seq<Address>, expires: int)

  type Entries = map<Bytes, Entry>

  /** `time.Duration(ttl)*time.Second`: a 64-bit product that wraps. */
  function TtlNanos(ttl: int): int {
    Wrap64(ttl * SECOND)
  }

  /** The stored lifetime is the TTL exactly when the product fits in 64 bits. */
  lemma {:induction false} TtlExactIffItFits(ttl: int)
    ensures TtlNanos(ttl) == ttl * SECOND <==> -9223372036 <= ttl <= 9223372036
  {
    var x := ttl * SECOND;
    assert TtlNanos(ttl) == x <==> MIN_INT <= x <= MAX_INT;
  }

  // ------------------------------------------------- the map under its operations

  /** A TTL of 9223372037 seconds makes a lifetime in the past. */
  lemma TtlCanWrap()
    ensures TtlNanos(9223372037) < 0
  {
  }

  function Lookup(m: Entries, key: Bytes, now: int): Option<seq<Address>> {
    if key !in m || now > m[key].expires then None else Some(m[key].addrs)
  }

  function Store(m: Entries, key: Bytes, addrs: seq<Address>, ttl: int, now: int): Entries {
    m[key := Entry(addrs, now + ttl)]
  }

  function Purged(m: Entries, now: int): Entries {
    map k | k in m && now <= m[k].expires :: m[k]
  }

  class Cache {
    var entries: Entries

    constructor ()
      ensures entries == map[]
    {
      entries := map[];
    }

    method Get(key: Bytes, now: int) returns (addrs: seq<Address>, ok: bool)
      ensures Lookup(entries, key, now) == if ok then Some(addrs) else None
      ensures ok <==> key in entries && now <= entries[key].expires
      ensures !ok ==> addrs == []
    {
      if key !in entries || now > entries[key].expires {
        return [], false;
      }
      return entries[key].addrs, true;
    }

    method Set(key: Bytes, addrs: seq<Address>, ttl: int, now: int)
      modifies this
      ensures entries == Store(old(entries), key, addrs, ttl, now)
    {
      entries := entries[key := Entry(addrs, now + ttl)];
    }

    /** Go visits the keys in any order while deleting; so does this loop. */
    method Purge(now: int)
      modifies this
      ensures entries == Purged(old(entries), now)
      ensures forall k :: k in entries <==> k in old(entries) && now <= old(entries)[k].expires
      ensures forall k | k in entries :: entries[k] == old(entries)[k]
    {
      var unvisited := entries.Keys;
      while unvisited != {}
        invariant unvisited <= entries.Keys <= old(entries).Keys
        invariant forall k | k in entries :: entries[k] == old(entries)[k]
        invariant forall k | k in old(entries) ::
                    k in entries <==> (k in unvisited || now <= old(entries)[k].expires)
        decreases unvisited
      {
        var k :| k in unvisited;
        unvisited := unvisited - {k};
        if now > entries[k].expires {
          entries := entries - {k};
        }
      }
    }
  }

  // ------------------------------------------------------------ whole histories

  /** One locked operation and the clock reading it takes. */
  datatype Op =
    | SetOp(now: int, key: Bytes, addrs: seq<Address>, ttl: int)
    | GetOp(now: int, key: Bytes)
    | PurgeOp(now: int)

  ghost predicate ClockNeverGoesBack(ops: seq<Op>) {
    forall i, j | 0 <= i < j < |ops| :: ops[i].now <= ops[j].now
  }

  function After(m: Entries, op: Op): Entries {
    match op
    case SetOp(now, key, addrs, ttl) => Store(m, key, addrs, ttl, now)
    case GetOp(_, _) => m
    case PurgeOp(now) => Purged(m, now)
  }

  function Replay(ops: seq<Op>): Entries {
    if ops == [] then map[] else After(Replay(ops[..|ops| - 1]), ops[|ops| - 1])
  }

  /** The last `set` of `key`, if any. */
  function LastSet(ops: seq<Op>, key: Bytes): Option<Op> {
    if ops == [] then None
    else
      var last := ops[|ops| - 1];
      if last.SetOp? && last.key == key then Some(last) else LastSet(ops[..|ops| - 1], key)
  }

  /** What a cache that never forgets would say. */
  function Fresh(set_: Option<Op>, now: int): Option<seq<Address>> {
    match set_
    case Some(SetOp(at, _, addrs, ttl)) => if now <= at + ttl then Some(addrs) else None
    case _ => None
  }

  /** An entry is the last `set` of its key; a missing key was never set or its last `set` has expired. */
  lemma {:induction false} EntriesAreLastSets(ops: seq<Op>, key: Bytes, now: int)
    requires ClockNeverGoesBack(ops)
    requires forall i | 0 <= i < |ops| :: ops[i].now <= now
    ensures match LastSet(ops, key)
            case Some(SetOp(at, k, addrs, ttl)) =>
              if key in Replay(ops) then Replay(ops)[key] == Entry(addrs, at + ttl) else at + ttl < now
            case _ => key !in Replay(ops)
  {
    if ops != [] {
      var before, last := ops[..|ops| - 1], ops[|ops| - 1];
      EntriesAreLastSets(before, key, last.now);
      EntriesAreLastSets(before, key, now);
    }
  }

  /**
   After any history under a clock that does not go back, `get` succeeds iff the last `set` of the
   key has not outlived its TTL, and then returns what that `set` stored.
   */
  lemma {:induction false} GetIsLastSet(ops: seq<Op>, key: Bytes, now: int)
    requires ClockNeverGoesBack(ops)
    requires forall i | 0 <= i < |ops| :: ops[i].now <= now
    ensures Lookup(Replay(ops), key, now) == Fresh(LastSet(ops, key), now)
  {
    EntriesAreLastSets(ops, key, now);
  }

  function GetResults(ops: seq<Op>): seq<Option<seq<Address>>> {
    if ops == [] then []
    else
      var before, last := ops[..|ops| - 1], ops[|ops| - 1];
      GetResults(before) + if last.GetOp? then [Lookup(Replay(before), last.key, last.now)] else []
  }

  function WithoutPurges(ops: seq<Op>): seq<Op> {
    if ops == [] then []
    else
      var before, last := ops[..|ops| - 1], ops[|ops| - 1];
      WithoutPurges(before) + if last.PurgeOp? then [] else [last]
  }

  lemma {:induction false} WithoutPurgesKeepsSets(ops: seq<Op>, key: Bytes)
    ensures LastSet(WithoutPurges(ops), key) == LastSet(ops, key)
  {
    if ops != [] {
      var before, last := ops[..|ops| - 1], ops[|ops| - 1];
      WithoutPurgesKeepsSets(before, key);
      var kept := WithoutPurges(before);
      if !last.PurgeOp? {
        assert (kept + [last])[..|kept|] == kept;
      } else {
        assert WithoutPurges(ops) == kept;
      }
    }
  }

  lemma {:induction false} WithoutPurgesKeepsClock(ops: seq<Op>, now: int)
    requires ClockNeverGoesBack(ops)
    requires forall i | 0 <= i < |ops| :: ops[i].now <= now
    ensures ClockNeverGoesBack(WithoutPurges(ops))
    ensures forall i | 0 <= i < |WithoutPurges(ops)| :: WithoutPurges(ops)[i].now <= now
  {
    if ops != [] {
      WithoutPurgesKeepsClock(ops[..|ops| - 1], ops[|ops| - 1].now);
    }
  }

  /** Purging is invisible: every `get` of a history answers as if no purge had ever run. */
  lemma {:induction false} PurgingIsInvisible(ops: seq<Op>)
    requires ClockNeverGoesBack(ops)
    ensures GetResults(ops) == GetResults(WithoutPurges(ops))
  {
    if ops != [] {
      var before, last := ops[..|ops| - 1], ops[|ops| - 1];
      PurgingIsInvisible(before);
      var kept := WithoutPurges(before);
      match last
      case PurgeOp(_) =>
        assert WithoutPurges(ops) == kept;
      case SetOp(_, _, _, _) =>
        assert (kept + [last])[..|kept|] == kept;
      case GetOp(now, key) =>
        assert (kept + [last])[..|kept|] == kept;
        GetIsLastSet(before, key, now);
        WithoutPurgesKeepsClock(before, now);
        GetIsLastSet(kept, key, now);
        WithoutPurgesKeepsSets(before, key);
    }
  }

  // ----------------------------------------------------------------- cache keys

  function TypeName(t: QType): Bytes {
    match t
    case A => [65]
    case AAAA => [65, 65, 65, 65]
    case MX => [77, 88]
  }

  /** `fmt.Sprintf("%s:%s", question, qtype)`. */
  function CacheKey(q: Question): Bytes {
    q.name + [58] + TypeName(q.qtype)
  }

  /** Reads a key from its end; names may hold colons, type names do not. */
  function SplitKey(key: Bytes): Question
    requires |key| >= 2
  {
    var n := |key|;
    if key[n - 1] == 88 && n >= 3 then Question(key[..n - 3], MX)
    else if key[n - 2] == 58 || n < 5 then Question(key[..n - 2], A)
    else Question(key[..n - 5], AAAA)
  }

  lemma {:induction false} SplitKeyInverts(q: Question)
    ensures SplitKey(CacheKey(q)) == q
  {
    var key := CacheKey(q);
    var t := TypeName(q.qtype);
    var n := |key|;
    assert key[n - 1] == t[|t| - 1];
    assert key[n - 2] == ([58] + t)[|t| - 1];
    assert key[..|q.name|] == q.name;
  }

  /** Two questions share a key only when they are the same, even with colons in the names. */
  lemma CacheKeyInjective(q1: Question, q2: Question)
    requires CacheKey(q1) == CacheKey(q2)
    ensures q1 == q2
  {
    SplitKeyInverts(q1);
    SplitKeyInverts(q2);
  }

  /** Which queries share a cache entry: those whose labels agree after splitting at dots, and whose types do. */
  lemma {:induction false} SharedEntryExactly(xs: seq<Label>, qtype: QType, ys: seq<Label>, qtype': QType)
    requires ValidLabels(xs) && ValidLabels(ys)
    ensures CacheKey(Question(Join(xs), qtype)) == CacheKey(Question(Join(ys), qtype'))
       <==> AllPieces(xs) == AllPieces(ys) && qtype == qtype'
  {
    hide CacheKey, Join, AllPieces, ValidLabels;
    SameNameExactly(xs, ys);
    if CacheKey(Question(Join(xs), qtype)) == CacheKey(Question(Join(ys), qtype')) {
      CacheKeyInjective(Question(Join(xs), qtype), Question(Join(ys), qtype'));
    }
  }
}
