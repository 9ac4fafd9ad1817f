/** The NAT2.5 database of a virtual interface: 16 chains, selected by the hash of the network
    address, and the shortcut to the entry used last. */
module NatBridge {
  import opened Words
  import opened NatHistory
  import opened NatSpec
  import opened NatTable
  import opened Sequences

  // ---------------------------------------------------------------- one map in 16 parts

  /** The map `db` is cut into `parts` by the hash of the key. */
  ghost predicate Parts(db: Db, parts: seq<Db>) {
    && |parts| == BUCKETS
    && (forall k :: k in db <==> k in parts[Hash(k)])
    && (forall k :: k in db ==> db[k] == parts[Hash(k)][k])
    && (forall b, k :: 0 <= b < |parts| && k in parts[b] ==> Hash(k) == b)
  }

  lemma PartsUpdate(db: Db, parts: seq<Db>, key: Key, v: Entry, part: Db)
    requires Parts(db, parts) && part == parts[Hash(key)][key := v]
    ensures Parts(db[key := v], parts[Hash(key) := part])
  {
  }

  ghost function AgedParts(parts: seq<Db>, now: nat, age: nat): (r: seq<Db>)
    ensures |r| == |parts| && forall b :: 0 <= b < |parts| ==> r[b] == AgeSome(parts[b], parts[b].Keys, now, age)
  {
    if parts == [] then [] else [AgeSome(parts[0], parts[0].Keys, now, age)] + AgedParts(parts[1..], now, age)
  }

  ghost function EmptyParts(): (r: seq<Db>)
    ensures |r| == BUCKETS && forall b :: 0 <= b < |r| ==> r[b] == map[]
  {
    seq(BUCKETS, _ => map[])
  }

  lemma EmptyIsParts()
    ensures Parts(map[], EmptyParts())
  {
  }

  lemma PartsAge(db: Db, parts: seq<Db>, now: nat, age: nat)
    requires Parts(db, parts)
    ensures Parts(AgeSome(db, db.Keys, now, age), AgedParts(parts, now, age))
  {
  }

  method EmptyChains() returns (heads: seq<Chain>)
    ensures |heads| == BUCKETS
    ensures forall b :: 0 <= b < |heads| ==> heads[b].Valid() && heads[b].bucket == b
    ensures forall b :: 0 <= b < |heads| ==> heads[b].db == map[] && heads[b].repr == {}
  {
    heads := [];
    for hash := 0 to BUCKETS
      invariant |heads| == hash
      invariant forall b :: 0 <= b < |heads| ==> heads[b].Valid() && heads[b].bucket == b
      invariant forall b :: 0 <= b < |heads| ==> heads[b].db == map[] && heads[b].repr == {}
    {
      var c := new Chain(hash);
      heads := heads + [c];
    }
  }

  class Vif {
    const nethash: seq<Chain>
    const age: nat                 // NAT25_AGEING_TIME * HZ
    var scdbEntry: DbEntry?
    var scdbMac: Mac
    var scdbIp: Ip

    ghost var db: Db
    ghost var parts: seq<Db>
    ghost var repr: set<DbEntry>   // every entry that was ever linked
    ghost var log: seq<Event>      // every operation so far

    ghost predicate AllValid(n: nat)
      requires n <= |nethash| && forall b :: 0 <= b < |nethash| ==> nethash[b].repr <= repr
      reads this`repr, nethash, repr
    {
      n == 0 || (nethash[n - 1].Valid() && AllValid(n - 1))
    }

    lemma {:induction false} ValidAt(n: nat)
      requires n <= |nethash| && (forall b :: 0 <= b < |nethash| ==> nethash[b].repr <= repr)
      ensures AllValid(n) <==> forall b :: 0 <= b < n ==> nethash[b].Valid()
    {
      if n > 0 {
        ValidAt(n - 1);
      }
    }

    /** The chains are sound and apart from each other. */
    ghost predicate Chains()
      reads this`repr, nethash, repr
    {
      && |nethash| == BUCKETS
      && (forall b :: 0 <= b < |nethash| ==> nethash[b].repr <= repr)
      && AllValid(|nethash|)
      && (forall b :: 0 <= b < |nethash| ==> nethash[b].bucket == b)
      && (forall b, e :: 0 <= b < |nethash| && e in nethash[b].repr ==> e.bucket == b)
    }

    /** The shortcut is empty or names an entry that is linked. */
    ghost predicate Shortcut()
      requires |nethash| == BUCKETS
      reads this`scdbEntry, nethash
    {
      scdbEntry != null ==> scdbEntry in nethash[Hash(scdbEntry.networkAddr)].nodes
    }

    /** The chains together hold `db`. */
    ghost predicate Stored()
      reads this`db, this`parts, this`repr, nethash, repr
    {
      && Chains()
      && |parts| == BUCKETS && (forall b :: 0 <= b < |nethash| ==> nethash[b].db == parts[b])
      && Parts(db, parts)
    }

    ghost predicate Sound()
      reads this`db, this`parts, this`repr, this`scdbEntry, nethash, repr
    {
      Stored() && Shortcut()
    }

    /** And `db` is what all operations so far leave. */
    ghost predicate Valid()
      reads this`db, this`parts, this`repr, this`scdbEntry, this`log, nethash, repr
    {
      Sound() && db == After(log, age)
    }

    constructor (age: nat)
      ensures Valid() && this.age == age && log == [] && db == map[] && scdbEntry == null && repr == {}
    {
      var heads := EmptyChains();
      nethash := heads;
      this.age := age;
      scdbEntry, scdbMac, scdbIp := null, Zeros(6), Zeros(4);
      db, parts, repr, log := map[], EmptyParts(), {}, [];
      new;
      ValidAt(|nethash|);
    }

    ghost method Record(e: Event)
      requires Sound() && db == Step(After(log, age), e, age)
      modifies this`log
      ensures Valid() && log == old(log) + [e]
    {
      hide Step, Stored, Shortcut;
      RunSnoc(map[], log, e, age);
      log := log + [e];
    }

    /** An operation on one chain leaves the others alone. */
    twostate lemma OthersKept(hash: nat)
      requires old(Chains()) && hash < |nethash| && old(forall b :: 0 <= b < |nethash| ==> nethash[b].Valid())
      requires old(repr) <= repr && nethash[hash].repr <= repr && nethash[hash].Valid()
      requires forall e :: e in nethash[hash].repr ==> e.bucket == hash
      requires forall b :: 0 <= b < |nethash| && b != hash ==> unchanged(nethash[b])
      requires forall e :: e in old(repr) && e.bucket != hash ==> unchanged(e)
      ensures Chains()
    {
      forall b | 0 <= b < |nethash| && b != hash
        ensures nethash[b].Valid()
      {
        assert unchanged(nethash[b].repr);
      }
      ValidAt(|nethash|);
    }

    /** Overwrites the data of an entry of chain `hash`. */
    method SetEntry(hash: nat, e: DbEntry, mac: Mac, now: nat, uses: int, ghost pos: nat)
      requires Chains() && hash < |nethash| && pos < |nethash[hash].nodes| && nethash[hash].nodes[pos] == e
      modifies nethash[hash], e
      ensures Chains() && nethash[hash].db == old(nethash[hash].db)[e.networkAddr := Entry(mac, now, uses)]
      ensures nethash[hash].nodes == old(nethash[hash].nodes)
      ensures forall b :: 0 <= b < |nethash| && b != hash ==> unchanged(nethash[b])
    {
      ValidAt(|nethash|);
      assert e in nethash[hash].repr;
      assert forall b :: 0 <= b < |nethash| && b != hash ==> nethash[b].bucket != nethash[hash].bucket;
      nethash[hash].SetData(e, mac, now, uses, pos);
      OthersKept(hash);
    }

    method LinkEntry(hash: nat, e: DbEntry)
      requires Chains() && hash < |nethash| && e !in repr && e.bucket == hash && e.networkAddr !in nethash[hash].db
      modifies this`repr, nethash[hash], e, nethash[hash].repr
      ensures Chains() && repr == old(repr) + {e}
      ensures nethash[hash].db == old(nethash[hash].db)[e.networkAddr := e.Value()] && e.Value() == old(e.Value())
      ensures nethash[hash].nodes == [e] + old(nethash[hash].nodes)
      ensures forall b :: 0 <= b < |nethash| && b != hash ==> unchanged(nethash[b])
    {
      hide AllValid, Pred, Chain.Valid;
      ValidAt(|nethash|);
      assert forall b :: 0 <= b < |nethash| && b != hash ==> nethash[b].bucket != nethash[hash].bucket;
      nethash[hash].HashLink(e);
      repr := repr + {e};
      OthersKept(hash);
    }

    method ExpireChain(hash: nat, now: nat, age: nat, scdb: DbEntry?) returns (kept: DbEntry?)
      requires Chains() && hash < |nethash|
      modifies nethash[hash], nethash[hash].repr
      ensures Chains() && nethash[hash].db == AgeSome(old(nethash[hash].db), old(nethash[hash].db).Keys, now, age)
      ensures kept == if scdb in old(nethash[hash].nodes) && scdb !in nethash[hash].nodes then null else scdb
      ensures forall b :: 0 <= b < |nethash| && b != hash ==> unchanged(nethash[b])
    {
      ValidAt(|nethash|);
      assert forall b :: 0 <= b < |nethash| && b != hash ==> nethash[b].bucket != nethash[hash].bucket;
      kept := nethash[hash].ExpirePass(now, age, scdb);
      OthersKept(hash);
    }

    method ClearChain(hash: nat, scdb: DbEntry?) returns (kept: DbEntry?)
      requires Chains() && hash < |nethash|
      modifies nethash[hash], nethash[hash].repr
      ensures Chains() && nethash[hash].db == map[] && nethash[hash].nodes == []
      ensures kept == if scdb in old(nethash[hash].nodes) then null else scdb
      ensures forall b :: 0 <= b < |nethash| && b != hash ==> unchanged(nethash[b])
    {
      ValidAt(|nethash|);
      assert forall b :: 0 <= b < |nethash| && b != hash ==> nethash[b].bucket != nethash[hash].bucket;
      kept := nethash[hash].Clear(scdb);
      OthersKept(hash);
    }

    /** The walk along the chain of an address. */
    method FindEntry(addr: Key) returns (e: DbEntry?, hash: nat, ghost pos: nat)
      requires Stored()
      ensures e == null <==> addr !in db
      ensures hash == Hash(addr)
      ensures e != null ==>
        && pos < |nethash[hash].nodes| && nethash[hash].nodes[pos] == e
        && e in repr && e.networkAddr == addr && db[addr] == e.Value()
    {
      hash := Hash(addr);
      ValidAt(|nethash|);
      e, pos := nethash[hash].Find(addr);
    }

    lemma EntryAt(hash: nat, pos: nat)
      requires Stored() && hash < |nethash| && pos < |nethash[hash].nodes|
      ensures var e := nethash[hash].nodes[pos]; e in repr && e.networkAddr in db && db[e.networkAddr] == e.Value()
    {
      ValidAt(|nethash|);
      nethash[hash].NodeAt(pos);
    }

    method Overwrite(hash: nat, e: DbEntry, mac: Mac, now: nat, uses: int, ghost pos: nat)
      requires Sound() && hash == Hash(e.networkAddr)
      requires pos < |nethash[hash].nodes| && nethash[hash].nodes[pos] == e
      modifies this`db, this`parts, nethash[hash], e
      ensures Sound() && db == old(db)[e.networkAddr := Entry(mac, now, uses)]
    {
      hide Hash, Chain.Valid;
      SetEntry(hash, e, mac, now, uses, pos);
      PartsUpdate(db, parts, e.networkAddr, Entry(mac, now, uses), nethash[hash].db);
      db, parts := db[e.networkAddr := Entry(mac, now, uses)], parts[hash := nethash[hash].db];
    }

    method Add(hash: nat, e: DbEntry)
      requires Sound() && hash == Hash(e.networkAddr) == e.bucket && e !in repr && e.networkAddr !in db
      modifies this`db, this`parts, this`repr, nethash[hash], e, nethash[hash].repr
      ensures Sound() && db == old(db)[e.networkAddr := e.Value()] && e.Value() == old(e.Value())
    {
      hide Last, Chain.Valid, DbEntry.Value, XorRange;
      ghost var v := e.Value();
      LinkEntry(hash, e);
      PartsUpdate(db, parts, e.networkAddr, v, nethash[hash].db);
      db, parts := db[e.networkAddr := v], parts[hash := nethash[hash].db];
    }

    /** An entry given up takes its shortcut's MAC and IP addresses with it. */
    method SetShortcut(kept: DbEntry?)
      modifies this`scdbEntry, this`scdbMac, this`scdbIp
      ensures scdbEntry == kept
      ensures if kept == old(scdbEntry) then scdbMac == old(scdbMac) && scdbIp == old(scdbIp)
              else scdbMac == Zeros(6) && scdbIp == Zeros(4)
    {
      if kept != scdbEntry {
        scdbMac, scdbIp := Zeros(6), Zeros(4);
      }
      scdbEntry := kept;
    }

    /** __nat25_db_network_insert; `alloc` says whether the allocation succeeds. */
    method NetworkInsert(mac: Mac, addr: Key, now: nat, alloc: bool)
      requires Valid()
      modifies this`db, this`parts, this`repr, this`log, nethash, repr
      ensures Valid() && log == old(log) + [Insert(addr, mac, now, alloc)]
      ensures addr in db <==> addr in old(db) || alloc
      ensures addr in db ==> db[addr].mac == mac && db[addr].stamp == now
      ensures forall k :: k != addr ==> (k in db <==> k in old(db)) && (k in db ==> db[k] == old(db)[k])
    {
      var e, hash, pos := FindEntry(addr);
      if e != null {
        Overwrite(hash, e, mac, now, e.useCount, pos);
      } else if alloc {
        e := new DbEntry(addr, mac, now, hash);
        Add(hash, e);
      }
      Record(Insert(addr, mac, now, alloc));
    }

    /** __nat25_db_network_lookup_and_replace: the destination of the frame becomes the learnt MAC
        address, unless the entry has expired. */
    method LookupAndReplace(frame: seq<u8>, addr: Key, now: nat) returns (found: bool, replaced: seq<u8>)
      requires Valid() && |frame| >= 6
      modifies this`db, this`parts, this`log, nethash, repr
      ensures Valid() && log == old(log) + [Lookup(addr, now)]
      ensures found <==> addr in old(db)
      ensures |replaced| == |frame|
      ensures replaced == if found && !Expired(Confirmed(old(log), addr), now, age)
                          then Taught(old(log), addr) + frame[6..]
                          else frame
    {
      replaced := frame;
      var e, hash, pos := FindEntry(addr);
      found := e != null;
      if found {
        ghost var a := History(log, addr, age);
      }
      if found && !Expired(e.ageingTimer, now, age) {
        replaced := e.macAddr + frame[6..];
        Overwrite(hash, e, e.macAddr, e.ageingTimer, Inc(e.useCount), pos);
      }
      Record(Lookup(addr, now));
    }

    /** vif->scdb_entry->ageing_timer = jiffies, when there is a shortcut. */
    method RefreshShortcut(now: nat) returns (refreshed: bool)
      requires Valid()
      modifies this`db, this`parts, this`log, nethash, repr
      ensures Valid() && refreshed == (scdbEntry != null)
      ensures scdbEntry != null ==> scdbEntry.networkAddr in old(db)
      ensures log == if scdbEntry == null then old(log) else old(log) + [Refresh(scdbEntry.networkAddr, now)]
    {
      hide AllValid, Parts, Chain.Valid;
      refreshed := scdbEntry != null;
      if refreshed {
        var hash := Hash(scdbEntry.networkAddr);
        ghost var pos :| 0 <= pos < |nethash[hash].nodes| && nethash[hash].nodes[pos] == scdbEntry;
        EntryAt(hash, pos);
        Overwrite(hash, scdbEntry, scdbEntry.macAddr, now, scdbEntry.useCount, pos);
        Record(Refresh(scdbEntry.networkAddr, now));
      }
    }

    /** The shortcut taken for IPv4 frames from `sa` with source address `ip`; the result says whether
        the frame still goes through nat25_db_handle. */
    method TakeShortcut(sa: Mac, ip: Ip, now: nat) returns (doNat25: bool)
      requires Valid()
      modifies this, nethash, repr
      ensures Valid() && doNat25 == (scdbEntry == null)
      ensures log == if scdbEntry == null then old(log) else old(log) + [Refresh(scdbEntry.networkAddr, now)]
      ensures old(scdbMac) != sa ==> (scdbEntry != null <==> Ipv4Key(ip) in old(db))
      ensures old(scdbMac) != sa && scdbEntry != null ==>
        scdbEntry.networkAddr == Ipv4Key(ip) && scdbMac == sa && scdbIp == ip
      ensures old(scdbMac) != sa && scdbEntry == null ==> scdbMac == old(scdbMac) && scdbIp == old(scdbIp)
      ensures old(scdbMac) == sa ==> scdbEntry == old(scdbEntry)
      ensures old(scdbMac) == sa && scdbEntry == null ==> scdbMac == Zeros(6) && scdbIp == Zeros(4)
    {
      ChooseShortcut(sa, ip, Ipv4Key(ip));
      var refreshed := RefreshShortcut(now);
      doNat25 := !refreshed;
    }

    method ChooseShortcut(sa: Mac, ip: Ip, addr: Key)
      requires Sound()
      modifies this`scdbEntry, this`scdbMac, this`scdbIp
      ensures Sound()
      ensures old(scdbMac) != sa ==> (scdbEntry != null <==> addr in db)
      ensures old(scdbMac) != sa && scdbEntry != null ==>
        scdbEntry.networkAddr == addr && scdbMac == sa && scdbIp == ip
      ensures old(scdbMac) != sa && scdbEntry == null ==> scdbMac == old(scdbMac) && scdbIp == old(scdbIp)
      ensures old(scdbMac) == sa ==> scdbEntry == old(scdbEntry)
      ensures old(scdbMac) == sa && scdbEntry == null ==> scdbMac == Zeros(6) && scdbIp == Zeros(4)
    {
      hide Hash, Stored, Chain.Valid, Zeros;
      if scdbMac != sa {
        var e, hash, pos := FindEntry(addr);
        scdbEntry := e;
        if scdbEntry != null {
          scdbMac, scdbIp := sa, ip;
        }
      } else if scdbEntry == null {
        scdbMac, scdbIp := Zeros(6), Zeros(4);
      }
    }

    method ExpireStep(hash: nat, now: nat, age: nat)
      requires Chains() && Shortcut() && hash < |nethash|
      modifies this`scdbEntry, this`scdbMac, this`scdbIp, nethash[hash], nethash[hash].repr
      ensures Chains() && Shortcut()
      ensures nethash[hash].db == AgeSome(old(nethash[hash].db), old(nethash[hash].db).Keys, now, age)
      ensures forall b :: 0 <= b < |nethash| && b != hash ==> unchanged(nethash[b])
    {
      var kept := ExpireChain(hash, now, age, scdbEntry);
      SetShortcut(kept);
    }

    method ClearStep(hash: nat)
      requires Chains() && Shortcut() && hash < |nethash|
      modifies this`scdbEntry, this`scdbMac, this`scdbIp, nethash[hash], nethash[hash].repr
      ensures Chains() && Shortcut()
      ensures nethash[hash].db == map[] && nethash[hash].nodes == []
      ensures forall b :: 0 <= b < |nethash| && b != hash ==> unchanged(nethash[b])
    {
      var kept := ClearChain(hash, scdbEntry);
      SetShortcut(kept);
    }

    method ExpireChains(now: nat, age: nat, ghost was: seq<Db>)
      requires Chains() && Shortcut() && |was| == BUCKETS && forall b :: 0 <= b < BUCKETS ==> nethash[b].db == was[b]
      modifies this`scdbEntry, this`scdbMac, this`scdbIp, nethash, repr
      ensures Chains() && Shortcut()
      ensures forall b :: 0 <= b < BUCKETS ==> nethash[b].db == AgedParts(was, now, age)[b]
    {
      hide AgedParts, AllValid, Hash, Chain.Valid;
      for hash := 0 to BUCKETS
        invariant Chains() && Shortcut()
        invariant forall b :: 0 <= b < hash ==> nethash[b].db == AgedParts(was, now, age)[b]
        invariant forall b :: hash <= b < BUCKETS ==> nethash[b].db == was[b]
      {
        ExpireStep(hash, now, age);
      }
    }

    /** nat25_db_expire */
    method Expire(now: nat)
      requires Valid()
      modifies this, nethash, repr
      ensures Valid() && log == old(log) + [NatSpec.Expire(now)]
    {
      hide Aged, AgedParts, AllValid, Hash, Parts, Chain.Valid;
      ExpireChains(now, age, parts);
      PartsAge(db, parts, now, age);
      parts, db := AgedParts(parts, now, age), AgeSome(db, db.Keys, now, age);
      Record(NatSpec.Expire(now));
    }

    method ClearChains()
      requires Chains() && Shortcut()
      modifies this`scdbEntry, this`scdbMac, this`scdbIp, nethash, repr
      ensures Chains() && scdbEntry == null
      ensures forall b :: 0 <= b < BUCKETS ==> nethash[b].db == map[]
    {
      hide AllValid, Hash, Chain.Valid;
      for hash := 0 to BUCKETS
        invariant Chains() && Shortcut()
        invariant forall b :: 0 <= b < hash ==> nethash[b].db == map[] && nethash[b].nodes == []
      {
        ClearStep(hash);
      }
    }

    /** nat25_db_cleanup */
    method Cleanup()
      requires Valid()
      modifies this, nethash, repr
      ensures Valid() && db == map[] && scdbEntry == null && log == old(log) + [NatSpec.Cleanup]
    {
      hide AgeSome, AllValid, EmptyParts, Hash, Parts;
      ClearChains();
      EmptyIsParts();
      parts, db := EmptyParts(), map[];
      Record(NatSpec.Cleanup);
    }
  }
}
