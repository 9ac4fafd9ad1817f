/** What the address database holds after a run of operations, told from the operations alone. */
module NatHistory {
  import opened NatSpec
  import opened Words

  /** The database that the operations `es` leave, from an empty one. */
  function After(es: seq<Event>, age: nat): Db {
    Run(map[], es, age)
  }

  function ButLast(es: seq<Event>): (r: seq<Event>)
    requires es != []
    ensures |r| == |es| - 1
  {
    es[..|es| - 1]
  }

  // ---------------------------------------------------------------- what the operations said

  /** The address that the last insert of `key` brought. */
  function Taught(es: seq<Event>, key: Key): Mac
    decreases |es|
  {
    if es == [] then [0, 0, 0, 0, 0, 0]
    else
      var e := es[|es| - 1];
      if e.Insert? && e.key == key then e.mac else Taught(ButLast(es), key)
  }

  /** The time of the last insert or refresh of `key`. */
  function Confirmed(es: seq<Event>, key: Key): nat
    decreases |es|
  {
    if es == [] then 0
    else
      var e := es[|es| - 1];
      if (e.Insert? || e.Refresh?) && e.key == key then e.now else Confirmed(ButLast(es), key)
  }

  /** One, for the insert at `a`; one more for every later lookup of `key` that found it not yet
      expired; one less for every later expire pass that found it expired. */
  function Count(es: seq<Event>, key: Key, a: nat, age: nat): int
    decreases |es|
  {
    if |es| <= a + 1 then 1
    else
      var before := ButLast(es);
      var e := es[|es| - 1];
      Count(before, key, a, age)
      + (if e.Lookup? && e.key == key && !Expired(Confirmed(before, key), e.now, age) then 1 else 0)
      - (if e.Expire? && Expired(Confirmed(before, key), e.now, age) then 1 else 0)
  }

  /** Event `j` takes out the entry that event `a` added: the table is cleared, or a pass finds the
      entry expired and with a 32-bit count of one. */
  predicate Ends(es: seq<Event>, key: Key, a: nat, j: nat, age: nat)
    requires j < |es|
  {
    || es[j].Cleanup?
    || (&& es[j].Expire? && Expired(Confirmed(es[..j], key), es[j].now, age)
        && Count(es[..j], key, a, age) % 0x1_0000_0000 == 1)
  }

  /** Event `a` added an entry for `key`, where there was none, and no event has taken it out. */
  ghost predicate AddedBy(es: seq<Event>, key: Key, a: nat, age: nat) {
    && a < |es| && es[a].Insert? && es[a].key == key && es[a].alloc
    && key !in After(es[..a], age)
    && forall j {:trigger Ends(es, key, a, j, age)} :: a < j < |es| ==> !Ends(es, key, a, j, age)
  }

  // ---------------------------------------------------------------- runs, from the back

  lemma {:induction false} RunSnoc(db: Db, es: seq<Event>, e: Event, age: nat)
    ensures Run(db, es + [e], age) == Step(Run(db, es, age), e, age)
    decreases |es|
  {
    var all := es + [e];
    if es == [] {
      assert Run(Step(db, e, age), all[1..], age) == Step(db, e, age);
    } else {
      assert all[1..] == es[1..] + [e] && all[0] == es[0];
      RunSnoc(Step(db, es[0], age), es[1..], e, age);
    }
  }

  lemma AfterLast(es: seq<Event>, age: nat)
    requires es != []
    ensures After(es, age) == Step(After(ButLast(es), age), es[|es| - 1], age)
  {
    assert ButLast(es) + [es[|es| - 1]] == es;
    RunSnoc(map[], ButLast(es), es[|es| - 1], age);
  }

  lemma AddedBefore(es: seq<Event>, key: Key, a: nat, age: nat)
    requires |es| > a + 1
    ensures AddedBy(es, key, a, age)
            <==> AddedBy(ButLast(es), key, a, age) && !Ends(es, key, a, |es| - 1, age)
  {
    var before := ButLast(es);
    assert forall j: nat :: j < |before| ==> before[j] == es[j] && before[..j] == es[..j];
    assert forall j :: a < j < |before| ==> (Ends(before, key, a, j, age) <==> Ends(es, key, a, j, age));
  }

  // ---------------------------------------------------------------- the entry

  /** A 32-bit count, signed. */
  predicate Signed32(uses: int, count: int) {
    -0x8000_0000 <= uses < 0x8000_0000 && uses % 0x1_0000_0000 == count % 0x1_0000_0000
  }

  lemma IncStep(uses: int, count: int)
    requires Signed32(uses, count)
    ensures Signed32(Inc(uses), count + 1)
  {
  }

  lemma DecStep(uses: int, count: int)
    requires Signed32(uses, count)
    ensures Signed32(Dec(uses), count - 1)
  {
  }

  lemma LastUse(uses: int, count: int)
    requires Signed32(uses, count)
    ensures Dec(uses) == 0 <==> count % 0x1_0000_0000 == 1
  {
  }

  lemma CountSteps(uses: int, count: int)
    requires Signed32(uses, count)
    ensures Signed32(Inc(uses), count + 1) && Signed32(Dec(uses), count - 1)
    ensures Dec(uses) == 0 <==> count % 0x1_0000_0000 == 1
  {
    hide Signed32;
    IncStep(uses, count);
    DecStep(uses, count);
    LastUse(uses, count);
  }

  /** What the entry of `key` reads after `es`, when event `a` added it. */
  ghost predicate Tells(db: Db, es: seq<Event>, key: Key, a: nat, age: nat) {
    && key in db && db[key].mac == Taught(es, key) && db[key].stamp == Confirmed(es, key)
    && Signed32(db[key].uses, Count(es, key, a, age))
  }

  lemma TellsStep(db: Db, es: seq<Event>, key: Key, a: nat, age: nat)
    requires a + 1 < |es| && Tells(db, ButLast(es), key, a, age) && !Ends(es, key, a, |es| - 1, age)
    ensures Tells(Step(db, es[|es| - 1], age), es, key, a, age)
  {
    hide Expired;
    CountSteps(db[key].uses, Count(ButLast(es), key, a, age));
  }

  /** An entry that event `a` added has the address that the last insert brought, the time of the last
      insert or refresh, and one use for that insert and each later lookup, less the passes. */
  lemma {:induction false} EntryTells(es: seq<Event>, key: Key, a: nat, age: nat)
    requires AddedBy(es, key, a, age)
    ensures Tells(After(es, age), es, key, a, age)
    decreases |es|
  {
    AfterLast(es, age);
    if |es| == a + 1 {
      assert ButLast(es) == es[..a];
    } else {
      AddedBefore(es, key, a, age);
      EntryTells(ButLast(es), key, a, age);
      TellsStep(After(ButLast(es), age), es, key, a, age);
    }
  }

  /** Every entry was added by an event of the run that nothing has undone. */
  lemma {:induction false} EntryAdded(es: seq<Event>, key: Key, age: nat) returns (a: nat)
    requires key in After(es, age)
    ensures AddedBy(es, key, a, age)
    decreases |es|
  {
    AfterLast(es, age);
    var before := ButLast(es);
    if key in After(before, age) {
      a := EntryAdded(before, key, age);
      EntryTells(before, key, a, age);
      CountSteps(After(before, age)[key].uses, Count(before, key, a, age));
      AddedBefore(es, key, a, age);
    } else {
      a := |es| - 1;
    }
  }

  lemma SmallCount(uses: int, count: int)
    requires Signed32(uses, count) && -0x8000_0000 <= count < 0x8000_0000
    ensures uses == count
  {
  }

  /** Which addresses the database knows, told from the operations. */
  lemma KnownIff(es: seq<Event>, key: Key, age: nat)
    ensures key in After(es, age) <==> exists a :: AddedBy(es, key, a, age)
  {
    hide AddedBy, After;
    if key in After(es, age) {
      var a := EntryAdded(es, key, age);
    }
    forall a | AddedBy(es, key, a, age)
      ensures key in After(es, age)
    {
      EntryTells(es, key, a, age);
    }
  }

  /** And what it knows of them: the address of the last insert, the time of the last insert or
      refresh, and the count since the insert that added the entry. */
  lemma History(es: seq<Event>, key: Key, age: nat) returns (a: nat)
    requires key in After(es, age)
    ensures AddedBy(es, key, a, age)
    ensures var e := After(es, age)[key];
      var n := Count(es, key, a, age);
      && e.mac == Taught(es, key) && e.stamp == Confirmed(es, key)
      && Signed32(e.uses, n) && (-0x8000_0000 <= n < 0x8000_0000 ==> e.uses == n)
  {
    hide AddedBy, After, Signed32;
    a := EntryAdded(es, key, age);
    EntryTells(es, key, a, age);
    var n := Count(es, key, a, age);
    if -0x8000_0000 <= n < 0x8000_0000 {
      SmallCount(After(es, age)[key].uses, n);
    }
  }

  /** A later insert of a known address teaches the new station. */
  lemma LastInsertWins(es: seq<Event>, key: Key, mac: Mac, now: nat, alloc: bool, age: nat)
    requires key in After(es, age) || alloc
    ensures var db := After(es + [Insert(key, mac, now, alloc)], age);
      key in db && db[key].mac == mac && db[key].stamp == now
  {
    RunSnoc(map[], es, Insert(key, mac, now, alloc), age);
  }
}
