/**
 * The NAT endpoint fabric: interface records (Pif), the interface table that
 * owns them together with a prefix trie over their endpoint prefixes, the
 * virtual network (Vpc) that owns one table, and the table's persisted form
 * (its name map only) with the rebuild of the trie on load.
 *
 * The pure part states what every operation does to the table's two maps
 * (TableState, AddPifSpec) and what the index invariant is (Consistent); the
 * classes at the end are the in-place operations, each tied to that part.
 */
module Fabric {
  import opened Wrappers
  import opened Ip
  import opened Trie

  /** `net::vxlan::Vni`: stored and handed back, never inspected. */
  type Vni(==)

  /** `Pif`: an interface with its underlay endpoint prefixes, overlay ip prefixes and owning vpc's name. */
  datatype Pif = Pif(name: string, endpoints: seq<Prefix>, ips: seq<Prefix>, vpc: string)

  /** `Pif::new`: the given name and vpc, no endpoints and no ips. */
  function NewPif(name: string, vpc: string): (p: Pif)
    ensures p.name == name && p.vpc == vpc
    ensures p.endpoints == [] && p.ips == []
  {
    Pif(name, [], [], vpc)
  }

  /** The two maps of a `PifTable`: the authoritative `pifs` and the trie's content. */
  datatype TableState = TableState(pifs: map<string, Pif>, entries: map<Prefix, string>)

  /** The outcome of `add_pif` and the table it leaves behind. */
  datatype Step = Step(status: Result<(), TrieError>, state: TableState)

  predicate NoDup<T(==)>(s: seq<T>)
  {
    forall i, j :: 0 <= i < j < |s| ==> s[i] != s[j]
  }

  /** Every prefix of `ps` bound to `v`. */
  function Bind(ps: seq<Prefix>, v: string): (r: map<Prefix, string>)
    ensures forall q :: q in r <==> q in ps
    ensures forall q :: q in r ==> r[q] == v
  {
    map q | q in ps :: v
  }

  /**
   * The endpoint loop of `add_pif`: insert each prefix of `ps` with value `v`,
   * in order, stopping at the first failed insert. The entries inserted before
   * that failure stay.
   */
  function InsertAll(m: map<Prefix, string>, ps: seq<Prefix>, v: string): Inserted
    decreases |ps|
  {
    if ps == [] then Inserted(m, Ok(()))
    else
      var first := InsertEntry(m, ps[0], v);
      if first.status.Err? then first
      else InsertAll(first.entries, ps[1..], v)
  }

  lemma NoDupCons<T>(s: seq<T>)
    requires s != []
    ensures NoDup(s) <==> s[0] !in s[1..] && NoDup(s[1..])
  {
    if s[0] !in s[1..] && NoDup(s[1..]) {
      forall i, j | 0 <= i < j < |s| ensures s[i] != s[j] {
        if i > 0 {
          assert s[i] == s[1..][i - 1] && s[j] == s[1..][j - 1];
        } else {
          assert s[j] == s[1..][j - 1];
        }
      }
    }
    if NoDup(s) {
      forall i, j | 0 <= i < j < |s| - 1 ensures s[1..][i] != s[1..][j] {
        assert s[1..][i] == s[i + 1] && s[1..][j] == s[j + 1];
      }
    }
  }

  /**
   * What the endpoint loop does: it succeeds exactly when the prefixes are
   * pairwise distinct and none is in the trie yet; it never changes or drops
   * an existing binding; every binding it adds is one of the prefixes bound to
   * `v`; on success every prefix is bound; and when the first prefix was not
   * yet stored, it stays inserted even if a later insert fails.
   */
  lemma {:induction false} InsertAllOutcome(m: map<Prefix, string>, ps: seq<Prefix>, v: string)
    ensures var r := InsertAll(m, ps, v);
      && (r.status.Ok? <==> NoDup(ps) && forall i :: 0 <= i < |ps| ==> ps[i] !in m)
      && (r.status.Err? ==> r.status.error == EntryExists)
      && (forall q :: q in m ==> q in r.entries && r.entries[q] == m[q])
      && (forall q :: q in r.entries && q !in m ==> q in ps && r.entries[q] == v)
      && (r.status.Ok? ==> forall q :: q in ps ==> q in r.entries)
      && (|ps| > 0 && ps[0] !in m ==> ps[0] in r.entries)
    decreases |ps|
  {
    if ps != [] {
      NoDupCons(ps);
      if ps[0] !in m {
        InsertAllOutcome(m[ps[0] := v], ps[1..], v);
      }
    }
  }

  /** One step of the endpoint loop. */
  lemma InsertAllUnfold(m: map<Prefix, string>, ps: seq<Prefix>, v: string)
    requires ps != []
    ensures InsertAll(m, ps, v) ==
      if ps[0] in m then Inserted(m, Err(EntryExists)) else InsertAll(m[ps[0] := v], ps[1..], v)
  {
  }

  /** Binding a first prefix and then the rest binds the whole sequence. */
  lemma BindCons(m: map<Prefix, string>, ps: seq<Prefix>, v: string)
    requires ps != []
    ensures m[ps[0] := v] + Bind(ps[1..], v) == m + Bind(ps, v)
  {
    assert forall q :: q in ps <==> q == ps[0] || q in ps[1..];
  }

  /**
   * The first failure at index `k` of `ps` is the first failure at `k - 1`
   * of the rest, once `ps[0]` has been inserted.
   */
  lemma FirstFailureShifts(m: map<Prefix, string>, ps: seq<Prefix>, v: string, k: nat)
    requires 0 < k < |ps|
    requires ps[k] in m || ps[k] in ps[..k]
    requires forall j :: 0 <= j < k ==> ps[j] !in m && ps[j] !in ps[..j]
    ensures var rest := ps[1..]; var m' := m[ps[0] := v];
      && (rest[k - 1] in m' || rest[k - 1] in rest[..k - 1])
      && (forall j :: 0 <= j < k - 1 ==> rest[j] !in m' && rest[j] !in rest[..j])
  {
    var rest := ps[1..];
    assert ps[..k] == [ps[0]] + rest[..k - 1];
    forall j | 0 <= j < k - 1
      ensures rest[j] !in m[ps[0] := v] && rest[j] !in rest[..j]
    {
      assert ps[..j + 1] == [ps[0]] + rest[..j];
      assert ps[0] in ps[..j + 1];
    }
  }

  /**
   * The exact trie after a failed endpoint loop: when `ps[k]` is the first
   * prefix that is already stored or repeats an earlier one, the loop fails
   * with `EntryExists` and leaves the old trie plus `ps[..k]` bound to `v`.
   */
  lemma {:induction false} InsertAllFailsAt(m: map<Prefix, string>, ps: seq<Prefix>, v: string, k: nat)
    requires k < |ps|
    requires ps[k] in m || ps[k] in ps[..k]
    requires forall j :: 0 <= j < k ==> ps[j] !in m && ps[j] !in ps[..j]
    ensures InsertAll(m, ps, v) == Inserted(m + Bind(ps[..k], v), Err(EntryExists))
    decreases k
  {
    InsertAllUnfold(m, ps, v);
    if k == 0 {
      assert m + Bind(ps[..0], v) == m;
    } else {
      FirstFailureShifts(m, ps, v, k);
      InsertAllFailsAt(m[ps[0] := v], ps[1..], v, k - 1);
      assert ps[1..][..k - 1] == ps[..k][1..];
      BindCons(m, ps[..k], v);
    }
  }

  /** A loop that inserted every prefix added exactly their bindings. */
  lemma InsertAllOkBinds(m: map<Prefix, string>, ps: seq<Prefix>, v: string)
    requires InsertAll(m, ps, v).status.Ok?
    ensures InsertAll(m, ps, v).entries == m + Bind(ps, v)
  {
    InsertAllOutcome(m, ps, v);
  }

  /**
   * `PifTable::add_pif` on the two maps. A name already present fails with
   * `EntryExists` and changes nothing; otherwise the endpoints are inserted in
   * order and the pif is added to `pifs` only when every insert succeeded.
   * There is no rollback: on a failed insert the earlier inserts remain.
   */
  function AddPifSpec(s: TableState, pif: Pif): Step
  {
    if pif.name in s.pifs then Step(Err(EntryExists), s)
    else
      var ins := InsertAll(s.entries, pif.endpoints, pif.name);
      if ins.status.Err? then Step(ins.status, TableState(s.pifs, ins.entries))
      else Step(Ok(()), TableState(s.pifs[pif.name := pif], ins.entries))
  }

  /**
   * What `add_pif` does to the two maps: a name already present is refused
   * with nothing changed; it succeeds exactly when the name is new and the
   * endpoints are distinct and not yet in the trie; `pifs` changes only on
   * success, by the one new binding; on success the trie gains exactly the
   * endpoints bound to the name; no existing trie binding is ever changed.
   */
  lemma AddPifOutcome(s: TableState, pif: Pif)
    ensures var r := AddPifSpec(s, pif);
      && (pif.name in s.pifs ==> r == Step(Err(EntryExists), s))
      && (r.status.Ok? <==>
            pif.name !in s.pifs && NoDup(pif.endpoints) &&
            forall i :: 0 <= i < |pif.endpoints| ==> pif.endpoints[i] !in s.entries)
      && (r.status.Err? ==> r.status.error == EntryExists && r.state.pifs == s.pifs)
      && (r.status.Ok? ==> r.state.pifs == s.pifs[pif.name := pif])
      && (r.status.Ok? ==> r.state.entries == s.entries + Bind(pif.endpoints, pif.name))
      && (forall q :: q in s.entries ==> q in r.state.entries && r.state.entries[q] == s.entries[q])
  {
    if pif.name !in s.pifs {
      InsertAllOutcome(s.entries, pif.endpoints, pif.name);
      if InsertAll(s.entries, pif.endpoints, pif.name).status.Ok? {
        InsertAllOkBinds(s.entries, pif.endpoints, pif.name);
      }
    }
  }

  /** `PifTable::new`: both maps empty. */
  function EmptyTable(): TableState
  {
    TableState(map[], map[])
  }

  // ---------------------------------------------------------------------------
  // The index invariant

  /** Each pif is stored under its own name. */
  ghost predicate KeysAreNames(pifs: map<string, Pif>)
  {
    forall n :: n in pifs ==> pifs[n].name == n
  }

  /** No endpoint prefix occurs twice, within one pif or across two. */
  ghost predicate EndpointsDisjoint(pifs: map<string, Pif>)
  {
    && (forall n :: n in pifs ==> NoDup(pifs[n].endpoints))
    && (forall n1, n2, q :: n1 in pifs && n2 in pifs && n1 != n2 && q in pifs[n1].endpoints ==>
          q !in pifs[n2].endpoints)
  }

  /** The trie holds exactly every stored pif's endpoints, each bound to that pif's name. */
  ghost predicate Indexes(pifs: map<string, Pif>, entries: map<Prefix, string>)
  {
    && (forall q :: q in entries ==> exists n :: n in pifs && q in pifs[n].endpoints)
    && (forall n, q :: n in pifs && q in pifs[n].endpoints ==> q in entries && entries[q] == pifs[n].name)
  }

  /** The table invariant kept by every successful `add_pif`. */
  ghost predicate Consistent(s: TableState)
  {
    KeysAreNames(s.pifs) && EndpointsDisjoint(s.pifs) && Indexes(s.pifs, s.entries)
  }

  /** A trie entry of a consistent table always names a present pif that owns that prefix. */
  lemma EntriesNamePresentPifs(s: TableState)
    requires Consistent(s)
    ensures forall q :: q in s.entries ==> s.entries[q] in s.pifs && q in s.pifs[s.entries[q]].endpoints
  {
    forall q | q in s.entries
      ensures s.entries[q] in s.pifs && q in s.pifs[s.entries[q]].endpoints
    {
      var n :| n in s.pifs && q in s.pifs[n].endpoints;
      assert s.entries[q] == s.pifs[n].name == n;
    }
  }

  /** The persisted map determines the trie content. */
  lemma IndexesDetermineEntries(pifs: map<string, Pif>, e1: map<Prefix, string>, e2: map<Prefix, string>)
    requires Indexes(pifs, e1) && Indexes(pifs, e2)
    ensures e1 == e2
  {
    forall q | q in e1 ensures q in e2 && e2[q] == e1[q] {
      var n :| n in pifs && q in pifs[n].endpoints;
    }
    forall q | q in e2 ensures q in e1 {
      var n :| n in pifs && q in pifs[n].endpoints;
    }
  }

  lemma EmptyTableConsistent()
    ensures Consistent(EmptyTable())
  {
  }

  /**
   * Adding a pif under a new key `n` together with its endpoints, none of them
   * already in the trie and none repeated, keeps the trie an exact index of
   * the map with no endpoint owned twice.
   */
  lemma AddOwnerKeepsDisjoint(pifs: map<string, Pif>, entries: map<Prefix, string>, n: string, pif: Pif)
    requires Indexes(pifs, entries) && EndpointsDisjoint(pifs)
    requires n !in pifs && NoDup(pif.endpoints)
    requires forall i :: 0 <= i < |pif.endpoints| ==> pif.endpoints[i] !in entries
    ensures EndpointsDisjoint(pifs[n := pif])
  {
    var t := pifs[n := pif];
    forall n1, n2, q | n1 in t && n2 in t && n1 != n2 && q in t[n1].endpoints
      ensures q !in t[n2].endpoints
    {
      if n1 == n {
        assert q !in entries;
      } else if n2 == n {
        assert q in entries;
      } else {
        assert q in pifs[n1].endpoints;
      }
    }
  }

  lemma AddOwnerKeepsIndex(pifs: map<string, Pif>, entries: map<Prefix, string>, n: string, pif: Pif)
    requires Indexes(pifs, entries) && n !in pifs
    requires forall i :: 0 <= i < |pif.endpoints| ==> pif.endpoints[i] !in entries
    ensures Indexes(pifs[n := pif], entries + Bind(pif.endpoints, pif.name))
  {
    var t := pifs[n := pif];
    var b := Bind(pif.endpoints, pif.name);
    var e := entries + b;
    forall n', q | n' in t && q in t[n'].endpoints
      ensures q in e && e[q] == t[n'].name
    {
      if n' == n {
        assert q in b;
      } else {
        assert q in entries && q !in b;
      }
    }
    forall q | q in e ensures exists n' :: n' in t && q in t[n'].endpoints {
      if q in entries {
        var n' :| n' in pifs && q in pifs[n'].endpoints;
        assert n' in t && q in t[n'].endpoints;
      } else {
        assert q in t[n].endpoints;
      }
    }
  }

  /** A successful `add_pif` keeps the index invariant. */
  lemma AddPifKeepsConsistent(s: TableState, pif: Pif)
    requires Consistent(s)
    requires AddPifSpec(s, pif).status.Ok?
    ensures Consistent(AddPifSpec(s, pif).state)
  {
    AddPifOutcome(s, pif);
    AddOwnerKeepsDisjoint(s.pifs, s.entries, pif.name, pif);
    AddOwnerKeepsIndex(s.pifs, s.entries, pif.name, pif);
  }

  /**
   * A failed `add_pif` for a new name keeps the index invariant exactly when
   * its first endpoint was the one that collided: every other failure leaves
   * orphan trie entries that name the unregistered pif.
   */
  lemma FailedAddPifLeavesOrphans(s: TableState, pif: Pif)
    requires Consistent(s)
    requires pif.name !in s.pifs
    requires AddPifSpec(s, pif).status.Err?
    ensures |pif.endpoints| > 0
    ensures var t := AddPifSpec(s, pif).state;
      forall q :: q in t.entries && q !in s.entries ==> t.entries[q] == pif.name && t.entries[q] !in t.pifs
    ensures var t := AddPifSpec(s, pif).state;
      Consistent(t) <==> pif.endpoints[0] in s.entries
  {
    AddPifOutcome(s, pif);
    var t := AddPifSpec(s, pif).state;
    var eps := pif.endpoints;
    InsertAllOutcome(s.entries, eps, pif.name);
    if eps[0] in s.entries {
      assert InsertAll(s.entries, eps, pif.name).entries == s.entries;
      assert t == s;
    } else {
      assert eps[0] in t.entries;
    }
  }

  /** The owner the table resolves `a` to: `p` is its longest endpoint containing `a` among all pifs. */
  ghost predicate OwnsLongest(pifs: map<string, Pif>, n: string, p: Prefix, a: IpAddr)
  {
    && n in pifs && p in pifs[n].endpoints && Covers(p, a)
    && forall n', q :: n' in pifs && q in pifs[n'].endpoints && Covers(q, a) ==> Len(q) <= Len(p)
  }

  /** On a consistent table the trie lookup finds nothing exactly when no pif has an endpoint containing `a`. */
  lemma ResolveNothing(s: TableState, a: IpAddr)
    requires Consistent(s)
    ensures Lookup(s.entries, a).None? <==>
      forall n, q :: n in s.pifs && q in s.pifs[n].endpoints ==> !Covers(q, a)
  {
    if Lookup(s.entries, a).None? {
      forall n, q | n in s.pifs && q in s.pifs[n].endpoints ensures !Covers(q, a) {
        assert q in s.entries;
      }
    } else {
      var p :| LongestMatch(s.entries, a, p);
      var n :| n in s.pifs && p in s.pifs[n].endpoints;
    }
  }

  /** On a consistent table the trie lookup resolves `a` to the pif owning its longest containing endpoint. */
  lemma ResolveOwner(s: TableState, a: IpAddr)
    requires Consistent(s)
    requires Lookup(s.entries, a).Some?
    ensures exists p :: OwnsLongest(s.pifs, Lookup(s.entries, a).value, p, a)
  {
    var r := Lookup(s.entries, a);
    var p :| LongestMatch(s.entries, a, p) && s.entries[p] == r.value;
    IndexedOwner(s.pifs, s.entries, a, p);
  }

  lemma IndexedOwner(pifs: map<string, Pif>, entries: map<Prefix, string>, a: IpAddr, p: Prefix)
    requires KeysAreNames(pifs) && Indexes(pifs, entries)
    requires LongestMatch(entries, a, p)
    ensures OwnsLongest(pifs, entries[p], p, a)
  {
    var n :| n in pifs && p in pifs[n].endpoints;
    assert entries[p] == n;
    forall n', q | n' in pifs && q in pifs[n'].endpoints && Covers(q, a) ensures Len(q) <= Len(p) {
      assert q in entries;
    }
  }

  // ---------------------------------------------------------------------------
  // Rebuilding the trie from the persisted map

  /** The persisted pifs whose keys are in `keys`. */
  function Restrict(m: map<string, Pif>, keys: set<string>): (r: map<string, Pif>)
    ensures forall n :: n in r <==> n in m && n in keys
    ensures forall n :: n in r ==> r[n] == m[n]
  {
    map n | n in keys && n in m :: m[n]
  }

  /**
   * The trie rebuilt so far: it indexes exactly the persisted pifs already
   * visited (those not in `remaining`), and their endpoints are all distinct.
   */
  ghost predicate Replayed(loaded: map<string, Pif>, remaining: set<string>, entries: map<Prefix, string>)
  {
    var visited := Restrict(loaded, loaded.Keys - remaining);
    Indexes(visited, entries) && EndpointsDisjoint(visited)
  }

  lemma RebuildStart(loaded: map<string, Pif>)
    ensures Replayed(loaded, loaded.Keys, map[])
  {
    assert Restrict(loaded, loaded.Keys - loaded.Keys) == map[];
  }

  /** One more persisted pif whose endpoint inserts all succeed extends the rebuilt index. */
  lemma RebuildStep(loaded: map<string, Pif>, remaining: set<string>, n: string,
                    before: map<Prefix, string>, after: map<Prefix, string>)
    requires n in remaining && remaining <= loaded.Keys
    requires Replayed(loaded, remaining, before)
    requires InsertAll(before, loaded[n].endpoints, loaded[n].name) == Inserted(after, Ok(()))
    ensures Replayed(loaded, remaining - {n}, after)
  {
    var pif := loaded[n];
    var visited := Restrict(loaded, loaded.Keys - remaining);
    InsertAllOutcome(before, pif.endpoints, pif.name);
    InsertAllOkBinds(before, pif.endpoints, pif.name);
    assert Restrict(loaded, loaded.Keys - (remaining - {n})) == visited[n := pif];
    AddOwnerKeepsIndex(visited, before, n, pif);
    AddOwnerKeepsDisjoint(visited, before, n, pif);
  }

  /** Once every persisted pif is replayed, the rebuilt trie indexes the whole map. */
  lemma RebuildComplete(loaded: map<string, Pif>, entries: map<Prefix, string>)
    requires Replayed(loaded, {}, entries)
    ensures Indexes(loaded, entries) && EndpointsDisjoint(loaded)
    ensures KeysAreNames(loaded) ==> Consistent(TableState(loaded, entries))
  {
    assert Restrict(loaded, loaded.Keys - {}) == loaded;
  }

  /** A failed endpoint insert during the rebuild means two persisted endpoints coincide. */
  lemma RebuildFailure(loaded: map<string, Pif>, remaining: set<string>, n: string, before: map<Prefix, string>)
    requires n in remaining && remaining <= loaded.Keys
    requires Replayed(loaded, remaining, before)
    requires InsertAll(before, loaded[n].endpoints, loaded[n].name).status.Err?
    ensures !EndpointsDisjoint(loaded)
  {
    var done := loaded.Keys - remaining;
    var eps := loaded[n].endpoints;
    InsertAllOutcome(before, eps, loaded[n].name);
    if NoDup(eps) {
      var i :| 0 <= i < |eps| && eps[i] in before;
      var n' :| n' in Restrict(loaded, done) && eps[i] in Restrict(loaded, done)[n'].endpoints;
      assert n' in loaded && n' != n && eps[i] in loaded[n'].endpoints && eps[i] in loaded[n].endpoints;
    }
  }

  // ---------------------------------------------------------------------------
  // The in-place objects

  /** The error `deserialize` reports when an endpoint insert fails while rebuilding the trie. */
  datatype LoadError = EndpointInsertFailed

  /** `PifTable`: the authoritative name map and the trie indexing its endpoints. */
  class PifTable {
    var pifs: map<string, Pif>
    const endpointTrie: PrefixTrie

    function State(): TableState
      reads this, endpointTrie
    {
      TableState(pifs, endpointTrie.entries)
    }

    ghost predicate Valid()
      reads this, endpointTrie
    {
      Consistent(State())
    }

    /** `PifTable::new`. */
    constructor ()
      ensures State() == EmptyTable() && Valid()
      ensures fresh(endpointTrie)
    {
      pifs := map[];
      endpointTrie := new PrefixTrie();
    }

    /** `add_pif`: the name check, the endpoint insert loop with early return, then the map insert. */
    method AddPif(pif: Pif) returns (r: Result<(), TrieError>)
      modifies this, endpointTrie
      ensures Step(r, State()) == AddPifSpec(old(State()), pif)
      ensures r.Ok? && old(Valid()) ==> Valid()
    {
      ghost var before := State();
      if pif.name in pifs {
        return Err(EntryExists);
      }
      var i := 0;
      while i < |pif.endpoints|
        invariant 0 <= i <= |pif.endpoints|
        invariant before == TableState(pifs, old(endpointTrie.entries))
        modifies endpointTrie
        invariant InsertAll(old(endpointTrie.entries), pif.endpoints, pif.name) ==
                  InsertAll(endpointTrie.entries, pif.endpoints[i..], pif.name)
      {
        assert pif.endpoints[i..][1..] == pif.endpoints[i + 1..];
        InsertAllUnfold(endpointTrie.entries, pif.endpoints[i..], pif.name);
        var res := endpointTrie.Insert(pif.endpoints[i], pif.name);
        if res.Err? {
          return res;
        }
        i := i + 1;
      }
      pifs := pifs[pif.name := pif];
      r := Ok(());
      if Consistent(before) {
        AddPifKeepsConsistent(before, pif);
      }
    }

    /** `find_pif_by_endpoint`: a read of the trie, and on a valid table the owner of the longest endpoint. */
    function FindPifByEndpoint(ip: IpAddr): (r: Option<string>)
      reads this, endpointTrie
      ensures r == Lookup(State().entries, ip)
      ensures Valid() ==> (r.None? <==> forall n, q :: n in pifs && q in pifs[n].endpoints ==> !Covers(q, ip))
      ensures Valid() && r.Some? ==> exists p :: OwnsLongest(pifs, r.value, p, ip)
    {
      var r := endpointTrie.FindIp(ip);
      assert Valid() ==> (r.None? <==> forall n, q :: n in pifs && q in pifs[n].endpoints ==> !Covers(q, ip)) by {
        if Valid() { ResolveNothing(State(), ip); }
      }
      assert Valid() && r.Some? ==> exists p :: OwnsLongest(pifs, r.value, p, ip) by {
        if Valid() && r.Some? { ResolveOwner(State(), ip); }
      }
      r
    }

    /** `serialize`: the persisted form is the name map alone, which on a valid table determines the trie. */
    function Serialize(): (m: map<string, Pif>)
      reads this, endpointTrie
      ensures Valid() ==> KeysAreNames(m) && EndpointsDisjoint(m) && Indexes(m, endpointTrie.entries)
    {
      pifs
    }

    /**
     * `deserialize`: a fresh table, every endpoint of every persisted pif
     * inserted into its trie, then the map assigned. The pifs are visited in
     * an unspecified order (the `:|` choice below), as a HashMap's values are;
     * the contract holds for every order. Any failed insert fails the whole load.
     */
    static method Deserialize(loaded: map<string, Pif>) returns (r: Result<PifTable, LoadError>)
      ensures r.Ok? <==> EndpointsDisjoint(loaded)
      ensures r.Ok? ==> fresh(r.value) && fresh(r.value.endpointTrie)
      ensures r.Ok? ==> r.value.pifs == loaded && Indexes(loaded, r.value.endpointTrie.entries)
      ensures r.Ok? && KeysAreNames(loaded) ==> r.value.Valid()
    {
      var table := new PifTable();
      var remaining := loaded.Keys;
      RebuildStart(loaded);
      while remaining != {}
        invariant remaining <= loaded.Keys
        invariant Replayed(loaded, remaining, table.endpointTrie.entries)
        modifies table.endpointTrie
        decreases remaining
      {
        var n :| n in remaining;
        var pif := loaded[n];
        ghost var before := table.endpointTrie.entries;
        var i := 0;
        while i < |pif.endpoints|
          invariant 0 <= i <= |pif.endpoints|
          invariant InsertAll(before, pif.endpoints, pif.name) ==
                    InsertAll(table.endpointTrie.entries, pif.endpoints[i..], pif.name)
          modifies table.endpointTrie
        {
          assert pif.endpoints[i..][1..] == pif.endpoints[i + 1..];
          InsertAllUnfold(table.endpointTrie.entries, pif.endpoints[i..], pif.name);
          var res := table.endpointTrie.Insert(pif.endpoints[i], pif.name);
          if res.Err? {
            RebuildFailure(loaded, remaining, n, before);
            return Err(EndpointInsertFailed);
          }
          i := i + 1;
        }
        RebuildStep(loaded, remaining, n, before, table.endpointTrie.entries);
        remaining := remaining - {n};
      }
      RebuildComplete(loaded, table.endpointTrie.entries);
      table.pifs := loaded;
      r := Ok(table);
    }
  }

  /**
   * Persisting a valid table and loading it back succeeds and reproduces both
   * maps, so every lookup answers as before.
   */
  method PersistAndLoad(t: PifTable) returns (r: Result<PifTable, LoadError>)
    requires t.Valid()
    ensures r.Ok?
    ensures r.value.State() == t.State()
    ensures forall a :: r.value.FindPifByEndpoint(a) == t.FindPifByEndpoint(a)
  {
    var persisted := t.Serialize();
    r := PifTable.Deserialize(persisted);
    IndexesDetermineEntries(t.pifs, t.endpointTrie.entries, r.value.endpointTrie.entries);
  }

  /** `Vpc`: a named virtual network with its vni and the one table it owns. */
  class Vpc {
    const name: string
    const vni: Vni
    const pifTable: PifTable

    ghost predicate Valid()
      reads pifTable, pifTable.endpointTrie
    {
      pifTable.Valid()
    }

    /** The objects this vpc's operations may read or change. */
    function Repr(): set<object>
    {
      {this, pifTable, pifTable.endpointTrie}
    }

    /** `Vpc::new`: the given name and vni, and a table of its own that is empty. */
    constructor (name: string, vni: Vni)
      ensures this.name == name && this.vni == vni
      ensures pifTable.State() == EmptyTable() && Valid()
      ensures fresh(Repr() - {this})
    {
      this.name := name;
      this.vni := vni;
      pifTable := new PifTable();
    }

    /** `Vpc::add_pif`: exactly the owned table's `add_pif`, touching nothing outside it. */
    method AddPif(pif: Pif) returns (r: Result<(), TrieError>)
      modifies pifTable, pifTable.endpointTrie
      ensures Step(r, pifTable.State()) == AddPifSpec(old(pifTable.State()), pif)
      ensures old(Valid()) && r.Ok? ==> Valid()
    {
      r := pifTable.AddPif(pif);
    }

    /** `Vpc::find_pif_by_endpoint`: exactly the owned table's lookup. */
    function FindPifByEndpoint(ip: IpAddr): (r: Option<string>)
      reads pifTable, pifTable.endpointTrie
      ensures r == Lookup(pifTable.State().entries, ip)
      ensures Valid() ==> (r.None? <==>
        forall n, q :: n in pifTable.pifs && q in pifTable.pifs[n].endpoints ==> !Covers(q, ip))
      ensures Valid() && r.Some? ==> exists p :: OwnsLongest(pifTable.pifs, r.value, p, ip)
    {
      pifTable.FindPifByEndpoint(ip)
    }
  }

  /**
   * Registering on one vpc leaves any other vpc, with a table and trie of its
   * own, exactly as it was: the same maps, and the same answer for every
   * address.
   */
  method AddPifLeavesOtherVpc(a: Vpc, b: Vpc, pif: Pif) returns (r: Result<(), TrieError>)
    requires a.pifTable != b.pifTable && a.pifTable.endpointTrie != b.pifTable.endpointTrie
    modifies a.pifTable, a.pifTable.endpointTrie
    ensures Step(r, a.pifTable.State()) == AddPifSpec(old(a.pifTable.State()), pif)
    ensures b.pifTable.State() == old(b.pifTable.State())
    ensures forall ip :: b.FindPifByEndpoint(ip) == old(b.FindPifByEndpoint(ip))
  {
    r := a.AddPif(pif);
  }

  /** A fresh vpc resolves no address. */
  method FreshVpcResolvesNothing(name: string, vni: Vni, ip: IpAddr) returns (r: Option<string>)
    ensures r == None
  {
    var v := new Vpc(name, vni);
    r := v.FindPifByEndpoint(ip);
  }

  /**
   * Two vpcs, each given one pif (the same names and prefixes allowed): what
   * each accepts and resolves depends on its own pif alone.
   */
  method TwoVpcsAreIsolated(vni: Vni, pa: Pif, pb: Pif, ip: IpAddr)
    returns (sa: Result<(), TrieError>, sb: Result<(), TrieError>, ra: Option<string>, rb: Option<string>)
    ensures sa == AddPifSpec(EmptyTable(), pa).status && sb == AddPifSpec(EmptyTable(), pb).status
    ensures ra == Lookup(AddPifSpec(EmptyTable(), pa).state.entries, ip)
    ensures rb == Lookup(AddPifSpec(EmptyTable(), pb).state.entries, ip)
  {
    var a := new Vpc(pa.vpc, vni);
    var b := new Vpc(pb.vpc, vni);
    sa := a.AddPif(pa);
    sb := b.AddPif(pb);
    ra := a.FindPifByEndpoint(ip);
    rb := b.FindPifByEndpoint(ip);
  }
}
