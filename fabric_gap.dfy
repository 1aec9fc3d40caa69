/**
 * The missing rollback in `add_pif` (the TODO after the endpoint insert):
 * concrete tables on which a failed registration leaves a trie entry naming an
 * interface the table does not hold, and on which persisting and reloading
 * then changes a lookup. Then a validate-then-commit registration that is
 * atomic. That variant is NOT what the repository does; nothing else in the
 * model uses it.
 */
module FabricGap {
  import opened Wrappers
  import opened Ip
  import opened Trie
  import opened Fabric

  /** The IPv4 prefixes 128.0.0.0/1 and 0.0.0.0/1. */
  function Upper(): Prefix { Net(V4, [true]) }
  function Lower(): Prefix { Net(V4, [false]) }

  /** A table holding one pif "a" with endpoint 128.0.0.0/1. */
  function TableWithA(): TableState
  {
    TableState(map["a" := Pif("a", [Upper()], [], "vpc")], map[Upper() := "a"])
  }

  /** A pif "b" whose second endpoint collides with "a"'s. */
  function PifB(): Pif
  {
    Pif("b", [Lower(), Upper()], [], "vpc")
  }

  lemma TableWithAConsistent()
    ensures Consistent(TableWithA())
  {
    var s := TableWithA();
    assert forall n :: n in s.pifs ==> n == "a";
    assert forall q :: q in s.entries ==> q == Upper() && q in s.pifs["a"].endpoints;
  }

  /** The inserts of "b": 0.0.0.0/1 goes in, then 128.0.0.0/1 collides. */
  lemma AddBStopsAtSecondEndpoint()
    ensures AddPifSpec(TableWithA(), PifB()) ==
      Step(Err(EntryExists), TableState(TableWithA().pifs, map[Upper() := "a", Lower() := "b"]))
  {
    var e := TableWithA().entries;
    assert Upper() != Lower() && Lower() !in e;
    assert PifB().endpoints[1..] == [Upper()];
    InsertAllUnfold(e, PifB().endpoints, "b");
    InsertAllUnfold(e[Lower() := "b"], [Upper()], "b");
    assert e[Lower() := "b"] == map[Upper() := "a", Lower() := "b"];
  }

  lemma LowerHalfResolves(a: IpAddr)
    requires Covers(Lower(), a)
    ensures Lookup(TableWithA().entries, a) == None
    ensures Lookup(map[Upper() := "a", Lower() := "b"], a) == Some("b")
  {
    assert !Covers(Upper(), a) by {
      assert a.bits[0] == Lower().bits[0];
    }
    LookupIsLongestMatch(map[Upper() := "a", Lower() := "b"], a, Lower());
  }

  /**
   * Registering "b" into a consistent table fails and leaves `pifs` alone, yet
   * 0.0.0.0/1 stays in the trie bound to "b": the table now resolves every
   * address in 0.0.0.0/1 to an interface it does not hold, and the index
   * invariant is broken.
   */
  lemma FailedAddResolvesToAbsentPif(a: IpAddr)
    requires Covers(Lower(), a)
    ensures Consistent(TableWithA())
    ensures AddPifSpec(TableWithA(), PifB()).status == Err(EntryExists)
    ensures AddPifSpec(TableWithA(), PifB()).state.pifs == TableWithA().pifs
    ensures Lookup(TableWithA().entries, a) == None
    ensures Lookup(AddPifSpec(TableWithA(), PifB()).state.entries, a) == Some("b")
    ensures "b" !in AddPifSpec(TableWithA(), PifB()).state.pifs
    ensures !Consistent(AddPifSpec(TableWithA(), PifB()).state)
  {
    var s := TableWithA();
    var t := TableState(s.pifs, map[Upper() := "a", Lower() := "b"]);
    TableWithAConsistent();
    AddBStopsAtSecondEndpoint();
    LowerHalfResolves(a);
    assert "b" !in t.pifs;
    assert !Consistent(t) by {
      FailedAddPifLeavesOrphans(s, PifB());
      assert Lower() !in s.entries;
    }
  }

  /**
   * The orphan entry does not survive a persist and reload: the persisted map
   * indexes a trie without it, so after reloading 0.0.0.0 resolves to nothing.
   */
  lemma ReloadAfterFailedAddDropsOrphan(e: map<Prefix, string>, a: IpAddr)
    requires Covers(Lower(), a)
    requires Indexes(AddPifSpec(TableWithA(), PifB()).state.pifs, e)
    ensures e == TableWithA().entries
    ensures e != AddPifSpec(TableWithA(), PifB()).state.entries
    ensures Lookup(e, a) == None
  {
    FailedAddResolvesToAbsentPif(a);
    IndexesDetermineEntries(TableWithA().pifs, e, TableWithA().entries);
  }

  /**
   * The same sequence run on the objects: register "a", then "b", then look
   * up an address in 0.0.0.0/1 on the table it left.
   */
  method FailedAddOnTable(a: IpAddr)
    returns (t: PifTable, ra: Result<(), TrieError>, rb: Result<(), TrieError>, found: Option<string>)
    requires Covers(Lower(), a)
    ensures ra == Ok(()) && rb == Err(EntryExists)
    ensures found == Some("b") && "b" !in t.pifs && !t.Valid()
  {
    t := new PifTable();
    ra := t.AddPif(Pif("a", [Upper()], [], "vpc"));
    assert t.State() == TableWithA() by {
      AddPifOutcome(EmptyTable(), Pif("a", [Upper()], [], "vpc"));
      assert Bind([Upper()], "a") == map[Upper() := "a"];
    }
    rb := t.AddPif(PifB());
    FailedAddResolvesToAbsentPif(a);
    found := t.FindPifByEndpoint(a);
  }

  /**
   * Registration made atomic by validating before committing: refuse a
   * present name, a repeated endpoint or an endpoint already in the trie with
   * nothing changed, and only then run the inserts and the map insert.
   */
  function AddPifAtomic(s: TableState, pif: Pif): (r: Step)
    ensures r.status == AddPifSpec(s, pif).status
    ensures r.status.Err? ==> r.state == s
    ensures r.status.Ok? ==> r.state == AddPifSpec(s, pif).state
    ensures Consistent(s) ==> Consistent(r.state)
  {
    AddPifOutcome(s, pif);
    if pif.name in s.pifs || !NoDup(pif.endpoints) ||
       exists i :: 0 <= i < |pif.endpoints| && pif.endpoints[i] in s.entries
    then Step(Err(EntryExists), s)
    else
      var r := AddPifSpec(s, pif);
      assert Consistent(s) ==> Consistent(r.state) by {
        if Consistent(s) { AddPifKeepsConsistent(s, pif); }
      }
      r
  }
}
