/**
 * The prefix trie the interface table indexes its endpoints with. Its node
 * layout and bit walk are not part of this model; what the table relies on is
 * its observable content, a finite map from prefix to interface name, and the
 * two operations the table calls: `insert`, which refuses an exact duplicate
 * prefix, and `find_ip`, a longest-prefix match.
 */
module Trie {
  import opened Wrappers
  import opened Ip

  /** The one insert failure the table observes. */
  datatype TrieError = EntryExists

  /** The trie content after an insert, with the insert's outcome. */
  datatype Inserted = Inserted(entries: map<Prefix, string>, status: Result<(), TrieError>)

  /**
   * Insert on the content: an exact (family, bits) duplicate fails and leaves
   * everything as it was; otherwise exactly one binding is added.
   */
  function InsertEntry(m: map<Prefix, string>, p: Prefix, v: string): (r: Inserted)
    ensures r.status.Ok? <==> p !in m
    ensures r.status.Err? ==> r.status.error == EntryExists && r.entries == m
    ensures r.status.Ok? ==> r.entries.Keys == m.Keys + {p} && r.entries[p] == v
    ensures forall q :: q in m ==> q in r.entries && r.entries[q] == m[q]
  {
    if p in m then Inserted(m, Err(EntryExists)) else Inserted(m[p := v], Ok(()))
  }

  /** `p` is a stored prefix containing `a`, and no stored prefix containing `a` is longer. */
  ghost predicate LongestMatch(m: map<Prefix, string>, a: IpAddr, p: Prefix)
  {
    p in m && Covers(p, a) && forall q :: q in m && Covers(q, a) ==> Len(q) <= Len(p)
  }

  /**
   * Longest match among the stored prefixes of length at most `k`: probes the
   * only candidate of each length, from `k` down to 0.
   */
  function Probe(m: map<Prefix, string>, a: IpAddr, k: nat): (r: Option<string>)
    requires k <= Width(a.family)
    ensures r.None? <==> forall q :: q in m && Covers(q, a) ==> Len(q) > k
    ensures r.Some? ==> exists p :: (p in m && Covers(p, a) && Len(p) <= k && m[p] == r.value &&
      forall q :: q in m && Covers(q, a) && Len(q) <= k ==> Len(q) <= Len(p))
    decreases k
  {
    var p := PrefixOf(a, k);
    if p in m then Some(m[p])
    else if k == 0 then None
    else Probe(m, a, k - 1)
  }

  /**
   * `find_ip`: the value bound to the longest stored prefix that contains the
   * address, or None when no stored prefix contains it.
   */
  function Lookup(m: map<Prefix, string>, a: IpAddr): (r: Option<string>)
    ensures r.None? <==> forall q :: q in m ==> !Covers(q, a)
    ensures r.Some? ==> exists p :: LongestMatch(m, a, p) && m[p] == r.value
  {
    Probe(m, a, Width(a.family))
  }

  /** The longest match is unique, so Lookup returns the value of that one prefix. */
  lemma LookupIsLongestMatch(m: map<Prefix, string>, a: IpAddr, p: Prefix)
    requires LongestMatch(m, a, p)
    ensures Lookup(m, a) == Some(m[p])
  {
    var r := Lookup(m, a);
    assert r.Some? by {
      assert p in m && Covers(p, a);
    }
    var q: Prefix :| LongestMatch(m, a, q) && m[q] == r.value;
    assert Len(q) == Len(p) by {
      assert q in m && Covers(q, a);
      assert p in m && Covers(p, a);
    }
    assert q == PrefixOf(a, Len(p)) == p;
  }

  /**
   * Overlapping prefixes resolve by specificity: with a prefix `p` and a
   * longer prefix `q` inside it stored, an address in `q` resolves to `q`'s
   * value, an address in `p` but outside `q` to `p`'s, and any other address
   * to nothing.
   */
  lemma NestedPrefixesResolveMostSpecific(p: Prefix, q: Prefix, vp: string, vq: string, a: IpAddr)
    requires p.family == q.family && p.bits < q.bits
    ensures Covers(q, a) ==> Lookup(map[p := vp, q := vq], a) == Some(vq)
    ensures Covers(p, a) && !Covers(q, a) ==> Lookup(map[p := vp, q := vq], a) == Some(vp)
    ensures !Covers(p, a) ==> Lookup(map[p := vp, q := vq], a) == None
  {
    var m := map[p := vp, q := vq];
    assert p != q && m.Keys == {p, q};
    if Covers(q, a) {
      assert Covers(p, a);
      LookupIsLongestMatch(m, a, q);
    } else if Covers(p, a) {
      LookupIsLongestMatch(m, a, p);
    }
  }

  /**
   * `PrefixTrie`, updated in place by `insert`. Only the content is kept:
   * `entries` stands for the (prefix, value) pairs the nodes carry.
   */
  class PrefixTrie {
    var entries: map<Prefix, string>

    /** `PrefixTrie::new`: no prefix stored. */
    constructor ()
      ensures entries == map[]
    {
      entries := map[];
    }

    /** `insert(prefix, value)`: fails on an exact duplicate, otherwise adds one binding. */
    method Insert(p: Prefix, v: string) returns (r: Result<(), TrieError>)
      modifies this
      ensures Inserted(entries, r) == InsertEntry(old(entries), p, v)
    {
      if p in entries {
        r := Err(EntryExists);
      } else {
        entries := entries[p := v];
        r := Ok(());
      }
    }

    /** `find_ip(ip)`: the longest-prefix match over the stored entries. */
    function FindIp(a: IpAddr): Option<string>
      reads this
    {
      Lookup(entries, a)
    }
  }
}
