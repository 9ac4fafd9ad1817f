/** The NAT2.5 hash table as built: chains of entries linked by `nextHash`, each entry with the
    address of the link that points at it. */
module NatTable {
  import opened Words
  import opened NatSpec
  import opened Sequences

  /** Where the pointer to an entry is stored: the head of a chain or another entry's `nextHash`. */
  datatype Link = NoLink | Head(chain: Chain) | NextOf(entry: DbEntry)

  class DbEntry {
    const networkAddr: Key
    ghost const bucket: nat        // the chain it belongs to
    var nextHash: DbEntry?
    var pprevHash: Link
    var useCount: int
    var macAddr: Mac
    var ageingTimer: nat

    constructor (key: Key, mac: Mac, now: nat, ghost hash: nat)
      ensures networkAddr == key && bucket == hash && Value() == Entry(mac, now, 1)
    {
      networkAddr, bucket := key, hash;
      nextHash, pprevHash := null, NoLink;
      macAddr, useCount, ageingTimer := mac, 1, now;
    }

    ghost function Value(): Entry
      reads this
    {
      Entry(macAddr, ageingTimer, useCount)
    }
  }

  predicate Distinct(ks: seq<Key>) {
    ks == [] || (ks[0] !in ks[1..] && Distinct(ks[1..]))
  }

  /** The map that a list of distinct keys and a list of values stand for. */
  function ToMap(ks: seq<Key>, vs: seq<Entry>): Db
    requires |ks| == |vs|
  {
    if ks == [] then map[] else ToMap(ks[1..], vs[1..])[ks[0] := vs[0]]
  }

  lemma {:induction false} DistinctAt(ks: seq<Key>, i: nat, j: nat)
    requires Distinct(ks) && i < |ks| && j < |ks| && i != j
    ensures ks[i] != ks[j]
  {
    if i == 0 {
      assert ks[j] == ks[1..][j - 1];
    } else if j == 0 {
      assert ks[i] == ks[1..][i - 1];
    } else {
      DistinctAt(ks[1..], i - 1, j - 1);
    }
  }

  lemma {:induction false} ToMapKeys(ks: seq<Key>, vs: seq<Entry>)
    requires |ks| == |vs|
    ensures forall k :: k in ToMap(ks, vs) <==> k in ks
  {
    if ks != [] {
      ToMapKeys(ks[1..], vs[1..]);
      assert ks == [ks[0]] + ks[1..];
    }
  }

  lemma ToMapPrepend(ks: seq<Key>, vs: seq<Entry>, k: Key, v: Entry)
    requires |ks| == |vs| && Distinct(ks) && k !in ToMap(ks, vs)
    ensures Distinct([k] + ks) && ToMap([k] + ks, [v] + vs) == ToMap(ks, vs)[k := v]
  {
    ToMapKeys(ks, vs);
    assert ([k] + ks)[1..] == ks && ([v] + vs)[1..] == vs;
  }

  lemma {:induction false} ToMapAt(ks: seq<Key>, vs: seq<Entry>, pos: nat)
    requires |ks| == |vs| && Distinct(ks) && pos < |ks|
    ensures ks[pos] in ToMap(ks, vs) && ToMap(ks, vs)[ks[pos]] == vs[pos]
  {
    if pos > 0 {
      ToMapAt(ks[1..], vs[1..], pos - 1);
      DistinctAt(ks, 0, pos);
    }
  }

  lemma {:induction false} ToMapUpdate(ks: seq<Key>, vs: seq<Entry>, pos: nat, v: Entry)
    requires |ks| == |vs| && Distinct(ks) && pos < |ks|
    ensures ToMap(ks, vs[pos := v]) == ToMap(ks, vs)[ks[pos] := v]
  {
    if pos == 0 {
      assert vs[pos := v][1..] == vs[1..];
    } else {
      ToMapUpdate(ks[1..], vs[1..], pos - 1, v);
      DistinctAt(ks, 0, pos);
      assert vs[pos := v][1..] == vs[1..][pos - 1 := v];
    }
  }

  lemma TailWithout<T>(s: seq<T>, pos: nat)
    requires 0 < pos < |s|
    ensures Without(s, pos)[0] == s[0] && Without(s, pos)[1..] == Without(s[1..], pos - 1)
    ensures forall x :: x in Without(s[1..], pos - 1) ==> x in s[1..]
  {
  }

  lemma UpdateMinus(m: Db, k: Key, v: Entry, j: Key)
    requires k != j
    ensures m[k := v] - {j} == (m - {j})[k := v]
  {
  }

  lemma AddedMinus(m: Db, k: Key, v: Entry)
    requires k !in m
    ensures m[k := v] - {k} == m
  {
  }

  lemma {:induction false} ToMapWithout(ks: seq<Key>, vs: seq<Entry>, pos: nat)
    requires |ks| == |vs| && Distinct(ks) && pos < |ks|
    ensures Distinct(Without(ks, pos))
    ensures ToMap(Without(ks, pos), Without(vs, pos)) == ToMap(ks, vs) - {ks[pos]}
  {
    var rest := ToMap(ks[1..], vs[1..]);
    if pos == 0 {
      assert Without(ks, pos) == ks[1..] && Without(vs, pos) == vs[1..];
      ToMapKeys(ks[1..], vs[1..]);
      AddedMinus(rest, ks[0], vs[0]);
    } else {
      hide Without;
      ToMapWithout(ks[1..], vs[1..], pos - 1);
      DistinctAt(ks, 0, pos);
      TailWithout(ks, pos);
      TailWithout(vs, pos);
      UpdateMinus(rest, ks[0], vs[0], ks[pos]);
    }
  }

  ghost function Succ(nodes: seq<DbEntry>, i: nat): DbEntry? {
    if i + 1 < |nodes| then nodes[i + 1] else null
  }

  /** Where the pointer to the i-th entry of a chain is stored. */
  ghost function Pred(chain: Chain, nodes: seq<DbEntry>, i: nat): Link {
    if 0 < i <= |nodes| then NextOf(nodes[i - 1]) else Head(chain)
  }

  lemma NeighboursPrepend(chain: Chain, nodes: seq<DbEntry>, e: DbEntry, j: nat)
    requires j <= |nodes|
    ensures var r := [e] + nodes;
      && (j == 0 ==> r[j] == e && Succ(r, j) == (if nodes == [] then null else nodes[0])
                     && Pred(chain, r, j) == Head(chain))
      && (j > 0 ==> r[j] == nodes[j - 1] && Succ(r, j) == Succ(nodes, j - 1)
                    && Pred(chain, r, j) == if j == 1 then NextOf(e) else Pred(chain, nodes, j - 1))
  {
  }

  lemma AtWithout<T>(s: seq<T>, pos: nat, j: nat)
    requires pos < |s| && j < |s| - 1
    ensures Without(s, pos)[j] == s[if j < pos then j else j + 1]
  {
  }

  /** Neighbours after the entry at `pos` is taken out: `j` counts in the new list, `i` is the same
      entry's place in the old one. */
  lemma NeighboursWithout(chain: Chain, nodes: seq<DbEntry>, pos: nat, j: nat)
    requires pos < |nodes| && j < |nodes| - 1
    ensures var r, i := Without(nodes, pos), if j < pos then j else j + 1;
      && r[j] == nodes[i]
      && Succ(r, j) == (if i + 1 == pos then Succ(nodes, pos) else Succ(nodes, i))
      && Pred(chain, r, j) == (if i == pos + 1 then Pred(chain, nodes, pos) else Pred(chain, nodes, i))
  {
  }

  /** A walk that stands at `pos` goes on with the same entries, whether or not the current one is
      taken out. */
  lemma StillFirst(nodes: seq<DbEntry>, pos: nat)
    requires pos < |nodes|
    ensures nodes[pos..][0] == nodes[pos] && nodes[pos..][1..] == nodes[pos + 1..]
    ensures Without(nodes, pos)[pos..] == nodes[pos + 1..]
    ensures Succ(nodes, pos) == if nodes[pos + 1..] == [] then null else nodes[pos + 1..][0]
  {
  }

  /** The entries still to be visited are those of the keys not visited. */
  ghost predicate Pending(db: Db, visited: set<Key>, rest: seq<DbEntry>)
    decreases |rest|
  {
    if rest == [] then visited == db.Keys
    else
      && rest[0].networkAddr in db && rest[0].networkAddr !in visited
      && Pending(db, visited + {rest[0].networkAddr}, rest[1..])
  }

  lemma {:induction false} PendingAll(db: Db, visited: set<Key>, rest: seq<DbEntry>, ks: seq<Key>)
    requires |rest| == |ks| && Distinct(ks)
    requires forall i :: 0 <= i < |rest| ==> rest[i].networkAddr == ks[i]
    requires forall k :: k in db <==> k in visited || k in ks
    requires forall k :: k in ks ==> k !in visited
    ensures Pending(db, visited, rest)
    decreases |rest|
  {
    if rest != [] {
      assert ks == [ks[0]] + ks[1..];
      PendingAll(db, visited + {ks[0]}, rest[1..], ks[1..]);
    }
  }

  /** One slot of `nethash` and the entries that hang from it. */
  class Chain {
    ghost const bucket: nat
    var head: DbEntry?

    ghost var nodes: seq<DbEntry>  // the entries in order, and, in the same order,
    ghost var keys: seq<Key>       // their keys
    ghost var vals: seq<Entry>     // and their data
    ghost var db: Db               // the map they stand for
    ghost var repr: set<DbEntry>   // every entry that was ever linked here

    /** Every link, forwards and backwards. */
    ghost predicate Linked()
      reads this, repr
    {
      && (forall i :: 0 <= i < |nodes| ==> nodes[i] in repr)
      && head == (if nodes == [] then null else nodes[0])
      && (forall i {:trigger nodes[i].nextHash} :: 0 <= i < |nodes| ==> nodes[i].nextHash == Succ(nodes, i))
      && (forall i {:trigger nodes[i].pprevHash} :: 0 <= i < |nodes| ==> nodes[i].pprevHash == Pred(this, nodes, i))
    }

    ghost predicate Described()
      requires forall i :: 0 <= i < |nodes| ==> nodes[i] in repr
      reads this, repr
    {
      && |keys| == |nodes| == |vals|
      && (forall i :: 0 <= i < |nodes| ==> nodes[i].networkAddr == keys[i])
      && (forall i :: 0 <= i < |nodes| ==> nodes[i].Value() == vals[i])
    }

    ghost predicate Valid()
      reads this, repr
    {
      Linked() && Described() && Distinct(keys) && db == ToMap(keys, vals)
    }

    constructor (ghost hash: nat)
      ensures Valid() && bucket == hash && db == map[] && repr == {}
    {
      bucket := hash;
      head := null;
      nodes, keys, vals, db, repr := [], [], [], map[], {};
    }

    lemma ApartFrom(pos: nat)
      requires Valid()
      ensures pos < |nodes| ==> forall i :: 0 <= i < |nodes| && i != pos ==> nodes[i] != nodes[pos]
    {
      if pos < |nodes| {
        forall i | 0 <= i < |nodes| && i != pos
          ensures nodes[i] != nodes[pos]
        {
          DistinctAt(keys, i, pos);
        }
      }
    }

    lemma NodeAt(pos: nat)
      requires Valid() && pos < |nodes|
      ensures nodes[pos].networkAddr in db && db[nodes[pos].networkAddr] == nodes[pos].Value()
    {
      ToMapAt(keys, vals, pos);
    }

    /** The chain walk shared by insert, lookup and scdb_findEntry: the entry of a key, if any. */
    method Find(key: Key) returns (e: DbEntry?, ghost pos: nat)
      requires Valid()
      ensures e == null <==> key !in db
      ensures e != null ==> pos < |nodes| && nodes[pos] == e && e.networkAddr == key && db[key] == e.Value()
    {
      e, pos := head, 0;
      while e != null && e.networkAddr != key
        invariant 0 <= pos <= |nodes|
        invariant e == if pos < |nodes| then nodes[pos] else null
        invariant forall i :: 0 <= i < pos ==> keys[i] != key
        decreases |nodes| - pos
      {
        assert nodes[pos].nextHash == Succ(nodes, pos);
        e := e.nextHash;
        pos := pos + 1;
      }
      ToMapKeys(keys, vals);
      if e != null {
        ToMapAt(keys, vals, pos);
      }
    }

    /** Overwriting the data of one entry changes the map at its key. */
    method SetData(e: DbEntry, mac: Mac, now: nat, uses: int, ghost pos: nat)
      requires Valid() && pos < |nodes| && nodes[pos] == e
      modifies this`db, this`vals, e`macAddr, e`ageingTimer, e`useCount
      ensures Valid() && db == old(db)[e.networkAddr := Entry(mac, now, uses)]
    {
      ApartFrom(pos);
      ToMapUpdate(keys, vals, pos, Entry(mac, now, uses));
      e.macAddr, e.ageingTimer, e.useCount := mac, now, uses;
      db := db[e.networkAddr := Entry(mac, now, uses)];
      vals := vals[pos := Entry(mac, now, uses)];
    }

    /** The pointer updates of __network_hash_link. */
    method LinkFront(e: DbEntry)
      requires Valid() && e !in repr
      modifies this`head, e`nextHash, e`pprevHash, repr`pprevHash
      ensures (forall i :: 0 <= i < |nodes| ==> nodes[i] in repr) && Described()
      ensures head == e && e.nextHash == old(head) && e.pprevHash == Head(this)
      ensures forall i {:trigger nodes[i].nextHash} :: 0 <= i < |nodes| ==> nodes[i].nextHash == Succ(nodes, i)
      ensures forall i {:trigger nodes[i].pprevHash} :: 0 <= i < |nodes| ==>
        nodes[i].pprevHash == if i == 0 then NextOf(e) else Pred(this, nodes, i)
    {
      ApartFrom(0);
      e.nextHash := head;
      if e.nextHash != null {
        e.nextHash.pprevHash := NextOf(e);
      }
      head := e;
      e.pprevHash := Head(this);
    }

    /** __network_hash_link: the new entry goes to the front. */
    method HashLink(e: DbEntry)
      requires Valid() && e !in repr && e.networkAddr !in db
      modifies this, e`nextHash, e`pprevHash, repr`pprevHash
      ensures Valid() && nodes == [e] + old(nodes) && repr == old(repr) + {e}
      ensures db == old(db)[e.networkAddr := e.Value()]
    {
      ToMapPrepend(keys, vals, e.networkAddr, e.Value());
      LinkFront(e);
      RecordFront(e);
    }

    ghost method RecordFront(e: DbEntry)
      requires (forall i :: 0 <= i < |nodes| ==> nodes[i] in repr) && Described()
      requires head == e && e.nextHash == (if nodes == [] then null else nodes[0]) && e.pprevHash == Head(this)
      requires forall i {:trigger nodes[i].nextHash} :: 0 <= i < |nodes| ==> nodes[i].nextHash == Succ(nodes, i)
      requires forall i {:trigger nodes[i].pprevHash} :: 0 <= i < |nodes| ==>
        nodes[i].pprevHash == if i == 0 then NextOf(e) else Pred(this, nodes, i)
      requires Distinct([e.networkAddr] + keys)
      requires ToMap([e.networkAddr] + keys, [e.Value()] + vals) == db[e.networkAddr := e.Value()]
      modifies this`nodes, this`keys, this`vals, this`db, this`repr
      ensures Valid() && nodes == [e] + old(nodes) && repr == old(repr) + {e}
      ensures db == old(db)[e.networkAddr := e.Value()]
    {
      hide Distinct, Succ, ToMap, DbEntry.Value;
      ghost var was := nodes;
      db := db[e.networkAddr := e.Value()];
      nodes, keys, vals, repr := [e] + nodes, [e.networkAddr] + keys, [e.Value()] + vals, repr + {e};
      forall j | 0 <= j < |nodes|
        ensures nodes[j] in repr && nodes[j].nextHash == Succ(nodes, j) && nodes[j].pprevHash == Pred(this, nodes, j)
      {
        NeighboursPrepend(this, was, e, j);
      }
    }

    /** The pointer updates of __network_hash_unlink: the link that points at the entry, and the
        back pointer of the entry behind it. */
    method Bypass(e: DbEntry, ghost pos: nat)
      requires Valid() && pos < |nodes| && nodes[pos] == e
      modifies this`head, repr`nextHash, repr`pprevHash
      ensures (forall i :: 0 <= i < |nodes| ==> nodes[i] in repr) && Described()
      ensures head == if pos == 0 then Succ(nodes, pos) else old(head)
      ensures forall i {:trigger nodes[i].nextHash} :: 0 <= i < |nodes| && i != pos ==>
        nodes[i].nextHash == if i + 1 == pos then Succ(nodes, pos) else Succ(nodes, i)
      ensures forall i {:trigger nodes[i].pprevHash} :: 0 <= i < |nodes| && i != pos ==>
        nodes[i].pprevHash == if i == pos + 1 then Pred(this, nodes, pos) else Pred(this, nodes, i)
    {
      hide ToMap;
      assert nodes[pos].pprevHash == Pred(this, nodes, pos) && nodes[pos].nextHash == Succ(nodes, pos);
      ApartFrom(pos);
      ApartFrom(pos + 1);
      if pos > 0 {
        ApartFrom(pos - 1);
      }
      if e.pprevHash.Head? {
        e.pprevHash.chain.head := e.nextHash;
      } else {
        e.pprevHash.entry.nextHash := e.nextHash;
      }
      if e.nextHash != null {
        e.nextHash.pprevHash := e.pprevHash;
      }
      e.nextHash, e.pprevHash := null, NoLink;
    }

    /** __network_hash_unlink */
    method HashUnlink(e: DbEntry, ghost pos: nat)
      requires Valid() && pos < |nodes| && nodes[pos] == e
      modifies this`head, this`nodes, this`keys, this`vals, this`db, repr`nextHash, repr`pprevHash
      ensures Valid() && nodes == Without(old(nodes), pos) && db == old(db) - {e.networkAddr}
    {
      ToMapWithout(keys, vals, pos);
      Bypass(e, pos);
      RecordWithout(e, pos);
    }

    ghost method RecordWithout(e: DbEntry, pos: nat)
      requires (forall i :: 0 <= i < |nodes| ==> nodes[i] in repr) && Described() && pos < |nodes| && nodes[pos] == e
      requires head == if pos == 0 then Succ(nodes, pos) else nodes[0]
      requires forall i {:trigger nodes[i].nextHash} :: 0 <= i < |nodes| && i != pos ==>
        nodes[i].nextHash == if i + 1 == pos then Succ(nodes, pos) else Succ(nodes, i)
      requires forall i {:trigger nodes[i].pprevHash} :: 0 <= i < |nodes| && i != pos ==>
        nodes[i].pprevHash == if i == pos + 1 then Pred(this, nodes, pos) else Pred(this, nodes, i)
      requires Distinct(Without(keys, pos))
      requires ToMap(Without(keys, pos), Without(vals, pos)) == db - {e.networkAddr}
      modifies this`nodes, this`keys, this`vals, this`db
      ensures Valid() && nodes == Without(old(nodes), pos) && db == old(db) - {e.networkAddr}
    {
      hide Distinct, ToMap;
      ghost var was, wasKeys, wasVals := nodes, keys, vals;
      db := db - {e.networkAddr};
      nodes, keys, vals := Without(nodes, pos), Without(keys, pos), Without(vals, pos);
      forall j | 0 <= j < |nodes|
        ensures nodes[j] in repr && nodes[j].nextHash == Succ(nodes, j) && nodes[j].pprevHash == Pred(this, nodes, j)
      {
        NeighboursWithout(this, was, pos, j);
      }
      forall j | 0 <= j < |nodes|
        ensures nodes[j].networkAddr == keys[j] && nodes[j].Value() == vals[j]
      {
        AtWithout(was, pos, j);
        AtWithout(wasKeys, pos, j);
        AtWithout(wasVals, pos, j);
      }
    }

    /** What an expire pass does with one entry: its new state, or true when it is unlinked. */
    method ExpireOne(f: DbEntry, now: nat, age: nat, ghost pos: nat) returns (removed: bool)
      requires Valid() && pos < |nodes| && nodes[pos] == f
      modifies this`head, this`nodes, this`keys, this`vals, this`db, repr
      ensures Valid() && f.networkAddr in old(db)
      ensures removed <==> Aged(old(db)[f.networkAddr], now, age).None?
      ensures removed ==> nodes == Without(old(nodes), pos) && db == old(db) - {f.networkAddr} && f !in nodes
      ensures !removed ==>
        nodes == old(nodes) && db == old(db)[f.networkAddr := Aged(old(db)[f.networkAddr], now, age).value]
    {
      hide ToMap, Wrap64;
      removed := false;
      ToMapAt(keys, vals, pos);
      if Expired(f.ageingTimer, now, age) {
        var uses := Dec(f.useCount);
        SetData(f, f.macAddr, f.ageingTimer, uses, pos);
        if uses == 0 {
          ApartFrom(pos);
          HashUnlink(f, pos);
          removed := true;
        }
      }
    }

    /** One chain of nat25_db_expire. The successor is fetched before the entry may be freed, and the
        shortcut `scdb` is given up when its entry is. */
    method ExpirePass(now: nat, age: nat, scdb: DbEntry?) returns (kept: DbEntry?)
      requires Valid()
      modifies this`head, this`nodes, this`keys, this`vals, this`db, repr
      ensures Valid() && db == AgeSome(old(db), old(db).Keys, now, age)
      ensures kept == if scdb in old(nodes) && scdb !in nodes then null else scdb
    {
      hide Dec, Distinct, Expired, Succ, ToMap, DbEntry.Value;
      ghost var was, wasDb, rest, pos, visited := nodes, db, nodes, 0, {};
      ToMapKeys(keys, vals);
      PendingAll(db, {}, nodes, keys);
      kept := scdb;
      var f := head;
      while f != null
        invariant Valid()
        invariant 0 <= pos <= |nodes| && nodes[pos..] == rest && f == if rest == [] then null else rest[0]
        invariant db == AgeSome(wasDb, visited, now, age) && Pending(wasDb, visited, rest)
        invariant (forall e :: e in rest ==> e in was) && (kept == scdb || kept == null)
        invariant kept == null ==> scdb == null || (scdb in was && scdb !in nodes)
        invariant kept != null && kept in was ==> kept in nodes
        decreases |rest|
      {
        StillFirst(nodes, pos);
        var g := f.nextHash;
        assert g == Succ(nodes, pos);
        AgeOneMore(wasDb, visited, f.networkAddr, now, age);
        var removed := ExpireOne(f, now, age, pos);
        if removed {
          if kept == f {
            kept := null;
          }
        } else {
          pos := pos + 1;
        }
        visited, rest := visited + {f.networkAddr}, rest[1..];
        f := g;
      }
    }

    /** One chain of nat25_db_cleanup. */
    method Clear(scdb: DbEntry?) returns (kept: DbEntry?)
      requires Valid()
      modifies this`head, this`nodes, this`keys, this`vals, this`db, repr
      ensures Valid() && db == map[] && nodes == []
      ensures kept == if scdb in old(nodes) then null else scdb
    {
      kept := scdb;
      var f := head;
      while f != null
        invariant Valid()
        invariant f == if nodes == [] then null else nodes[0]
        invariant forall e :: e in nodes ==> e in old(nodes)
        invariant kept == if scdb in old(nodes) && scdb !in nodes then null else scdb
        decreases |nodes|
      {
        var g := f.nextHash;
        assert g == Succ(nodes, 0) && Without(nodes, 0) == nodes[1..];
        if kept == f {
          kept := null;
        }
        ApartFrom(0);
        HashUnlink(f, 0);
        f := g;
      }
    }
  }
}
