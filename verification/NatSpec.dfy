/** The NAT2.5 address database as a finite map, with ageing by use counts. */
module NatSpec {
  import opened Words

  /** A network address: its kind and the address proper, padded to 17 bytes. */
  type Key = k: seq<u8> | |k| == 17 witness [0, 0, 0, 0, 0, 0, 0, 0, 0, 0, 0, 0, 0, 0, 0, 0, 0]

  const BUCKETS := 16

  type Ip = a: seq<u8> | |a| == 4 witness [0, 0, 0, 0]

  /** __nat25_generate_ipv4_network_addr */
  function Ipv4Key(ip: Ip): Key {
    [1, 0, 0, 0, 0, 0, 0] + ip + [0, 0, 0, 0, 0, 0]
  }

  type Mac = m: seq<u8> | |m| == 6 witness [0, 0, 0, 0, 0, 0]

  /** The learnt MAC address, the time it was last confirmed, and the 32-bit use count. */
  datatype Entry = Entry(mac: Mac, stamp: nat, uses: int)

  type Db = map<Key, Entry>

  // ---------------------------------------------------------------- hash

  function XorRange(k: Key, lo: nat, hi: nat): nat
    requires lo <= hi <= |k|
    decreases hi - lo
  {
    if lo == hi then 0 else Xor(k[lo], XorRange(k, lo + 1, hi))
  }

  /** The bytes that the hash of each kind of address covers, from `First` up to `Last`: IPv4, IPX,
      AppleTalk, PPPoE, IPv6, any other. */
  function First(kind: u8): nat {
    if kind == 1 then 7 else if 2 <= kind <= 4 then 1 else 0
  }

  function Last(kind: u8): nat {
    if kind == 1 || kind == 3 then 11 else if kind == 4 then 4 else if kind == 5 then 9 else 17
  }

  /** __nat25_network_hash: the covered bytes, folded to four bits. */
  function Hash(k: Key): (h: nat)
    ensures h < BUCKETS
  {
    assert Pow2(4) == 16;
    AndMask(XorRange(k, First(k[0]), Last(k[0])), 4);
    And(XorRange(k, First(k[0]), Last(k[0])), 15)
  }

  // ---------------------------------------------------------------- time and counts

  /** __nat25_has_expired: time_before_eq(stamp, now - age) on 64-bit jiffies. */
  predicate Expired(stamp: nat, now: nat, age: nat) {
    Wrap64(now - age - stamp) < 0x8000_0000_0000_0000
  }

  /** Within half the range of the clock, an entry has expired once its age is reached. */
  lemma ExpiredIff(stamp: nat, now: nat, age: nat)
    requires stamp <= now && age < 0x8000_0000_0000_0000 && now - stamp - age < 0x8000_0000_0000_0000
    ensures Expired(stamp, now, age) <==> now - stamp >= age
  {
  }

  const MAX_COUNT := 0x7FFF_FFFF

  /** atomic_inc and atomic_dec on a 32-bit counter. */
  function Inc(c: int): int {
    if c == 0x7FFF_FFFF then -0x8000_0000 else c + 1
  }

  function Dec(c: int): int {
    if c == -0x8000_0000 then 0x7FFF_FFFF else c - 1
  }

  // ---------------------------------------------------------------- operations

  datatype Event =
    | Insert(key: Key, mac: Mac, now: nat, alloc: bool)
    | Lookup(key: Key, now: nat)
    | Refresh(key: Key, now: nat)     // by the shortcut entry
    | Expire(now: nat)
    | Cleanup

  function Learn(db: Db, key: Key, mac: Mac, now: nat, alloc: bool): Db {
    if key in db then db[key := db[key].(mac := mac, stamp := now)]
    else if alloc then db[key := Entry(mac, now, 1)]
    else db
  }

  function Use(db: Db, key: Key, now: nat, age: nat): Db {
    if key in db && !Expired(db[key].stamp, now, age) then db[key := db[key].(uses := Inc(db[key].uses))] else db
  }

  function Touch(db: Db, key: Key, now: nat): Db {
    if key in db then db[key := db[key].(stamp := now)] else db
  }

  /** What an expire pass makes of one entry. */
  function Aged(e: Entry, now: nat, age: nat): Option<Entry> {
    if !Expired(e.stamp, now, age) then Some(e)
    else if Dec(e.uses) == 0 then None
    else Some(e.(uses := Dec(e.uses)))
  }

  /** An expire pass that has visited the keys in `visited`. */
  function AgeSome(db: Db, visited: set<Key>, now: nat, age: nat): Db {
    map k | k in db && (k in visited ==> Aged(db[k], now, age).Some?)
      :: if k in visited then Aged(db[k], now, age).value else db[k]
  }

  /** Visiting one more key changes that key only. */
  lemma AgeOneMore(db: Db, visited: set<Key>, k: Key, now: nat, age: nat)
    requires k in db && k !in visited
    ensures var part := AgeSome(db, visited, now, age);
      && k in part && part[k] == db[k]
      && AgeSome(db, visited + {k}, now, age)
         == match Aged(db[k], now, age) case None => part - {k} case Some(e) => part[k := e]
  {
  }

  function Step(db: Db, e: Event, age: nat): Db {
    match e
    case Insert(key, mac, now, alloc) => Learn(db, key, mac, now, alloc)
    case Lookup(key, now) => Use(db, key, now, age)
    case Refresh(key, now) => Touch(db, key, now)
    case Expire(now) => AgeSome(db, db.Keys, now, age)
    case Cleanup => map[]
  }

  function Run(db: Db, es: seq<Event>, age: nat): Db
    decreases |es|
  {
    if es == [] then db else Run(Step(db, es[0], age), es[1..], age)
  }

  // ---------------------------------------------------------------- use counts stay positive

  ghost predicate CountsPositive(db: Db) {
    forall k :: k in db ==> 1 <= db[k].uses
  }

  /** The one step after which an entry no longer has a positive count: the lookup that takes a
      count beyond 31 bits. */
  predicate Overflows(db: Db, e: Event, age: nat) {
    e.Lookup? && e.key in db && !Expired(db[e.key].stamp, e.now, age) && db[e.key].uses == MAX_COUNT
  }

  lemma CountsPositiveIff(db: Db, e: Event, age: nat)
    requires CountsPositive(db)
    ensures CountsPositive(Step(db, e, age)) <==> !Overflows(db, e, age)
  {
    if Overflows(db, e, age) {
      assert e.key in Step(db, e, age) && Step(db, e, age)[e.key].uses < 0;
    }
  }

  /** The lookup that takes a count beyond 31 bits makes it negative. */
  lemma LastCountOverflows(key: Key, mac: Mac)
    ensures var db := map[key := Entry(mac, 10, MAX_COUNT)];
      CountsPositive(db) && Step(db, Lookup(key, 10), 5)[key].uses == -0x8000_0000
  {
    assert !Expired(10, 10, 5);
  }

  /** No lookup of the run takes a count beyond 31 bits. */
  predicate NeverOverflows(db: Db, es: seq<Event>, age: nat)
    decreases |es|
  {
    es == [] || (!Overflows(db, es[0], age) && NeverOverflows(Step(db, es[0], age), es[1..], age))
  }

  /** Then every entry has a positive count throughout. */
  lemma {:induction false} RunCountsPositive(db: Db, es: seq<Event>, age: nat)
    requires CountsPositive(db) && NeverOverflows(db, es, age)
    ensures CountsPositive(Run(db, es, age))
    decreases |es|
  {
    if es != [] {
      CountsPositiveIff(db, es[0], age);
      RunCountsPositive(Step(db, es[0], age), es[1..], age);
    }
  }

  // ---------------------------------------------------------------- ageing over runs

  /** An event that neither confirms the entry of `key` nor clears the table, at a time at which the
      entry has expired. */
  predicate Ignores(e: Event, key: Key, stamp: nat, age: nat) {
    match e
    case Insert(k, _, _, _) => k != key
    case Lookup(k, now) => k == key ==> Expired(stamp, now, age)
    case Refresh(k, _) => k != key
    case Expire(now) => Expired(stamp, now, age)
    case Cleanup => false
  }

  function Passes(es: seq<Event>): nat {
    if es == [] then 0 else (if es[0].Expire? then 1 else 0) + Passes(es[1..])
  }

  /** An expired entry that is not confirmed is removed by exactly the `uses`-th following expire
      pass and by no earlier one, whatever else happens in between. */
  lemma {:induction false} RemovedByItsLastUse(db: Db, key: Key, es: seq<Event>, age: nat)
    requires key in db && 1 <= db[key].uses
    requires forall i :: 0 <= i < |es| ==> Ignores(es[i], key, db[key].stamp, age)
    ensures var n := Passes(es);
      if n < db[key].uses then key in Run(db, es, age) && Run(db, es, age)[key] == db[key].(uses := db[key].uses - n)
      else key !in Run(db, es, age)
    decreases |es|
  {
    if es != [] {
      var db1 := Step(db, es[0], age);
      assert Ignores(es[0], key, db[key].stamp, age);
      if es[0].Expire? && db[key].uses == 1 {
        assert key !in db1;
        GoneStaysGone(db1, key, es[1..], db[key].stamp, age);
      } else {
        assert key in db1 && db1[key] == db[key].(uses := db[key].uses - (if es[0].Expire? then 1 else 0));
        RemovedByItsLastUse(db1, key, es[1..], age);
      }
    }
  }

  lemma {:induction false} GoneStaysGone(db: Db, key: Key, es: seq<Event>, stamp: nat, age: nat)
    requires key !in db && forall i :: 0 <= i < |es| ==> Ignores(es[i], key, stamp, age)
    ensures key !in Run(db, es, age)
    decreases |es|
  {
    if es != [] {
      assert Ignores(es[0], key, stamp, age);
      GoneStaysGone(Step(db, es[0], age), key, es[1..], stamp, age);
    }
  }

  /** So it is for every entry of a table that was filled by any run of operations from empty. */
  lemma RemovedAfterRun(past: seq<Event>, key: Key, es: seq<Event>, age: nat)
    requires NeverOverflows(map[], past, age) && key in Run(map[], past, age)
    requires forall i :: 0 <= i < |es| ==> Ignores(es[i], key, Run(map[], past, age)[key].stamp, age)
    ensures var db := Run(map[], past, age);
      && 1 <= db[key].uses
      && (key in Run(db, es, age) <==> Passes(es) < db[key].uses)
  {
    RunCountsPositive(map[], past, age);
    RemovedByItsLastUse(Run(map[], past, age), key, es, age);
  }

  /** Whenever a pass comes, the entry of `key` has not expired; and the table is not cleared. */
  predicate KeptFresh(db: Db, key: Key, es: seq<Event>, age: nat)
    decreases |es|
  {
    es == [] || (
      && es[0] != Cleanup
      && (es[0].Expire? && key in db ==> !Expired(db[key].stamp, es[0].now, age))
      && KeptFresh(Step(db, es[0], age), key, es[1..], age))
  }

  /** Such an entry survives every pass. */
  lemma {:induction false} FreshSurvives(db: Db, key: Key, es: seq<Event>, age: nat)
    requires key in db && KeptFresh(db, key, es, age)
    ensures key in Run(db, es, age)
    decreases |es|
  {
    if es != [] {
      FreshSurvives(Step(db, es[0], age), key, es[1..], age);
    }
  }
}
