# NAT endpoint fabric

This project models the dataplane's NAT fabric: the index that maps underlay
endpoint prefixes to the interface (Pif) that owns them. It is written in Dafny
and proves properties of the model.

- A `Pif` has a name, a list of endpoint prefixes, a list of overlay ip
  prefixes and the name of its VPC.
- A `PifTable` holds a map from interface name to `Pif` and a prefix trie from
  each registered endpoint prefix to the owning interface's name.
- A `Vpc` owns exactly one table, together with its name and VNI. It forwards
  registration and lookup to that table.
- A table persists only its name map. Loading it rebuilds the trie by
  re-inserting every loaded interface's endpoints.

## Files

The classes hold real state:

- `PifTable` has a `pifs` map field and a `PrefixTrie` object.
- `PrefixTrie` has an `entries` map field.

Each state-changing class method is tied to a pure function of the old state:

| file | contents |
|---|---|
| `ip.dfy` | Addresses and prefixes, as an address family plus a bit string. A prefix is no longer than its family's width: 32 bits for IPv4, 128 for IPv6. |
| `prefix_trie.dfy` | The prefix trie's observable behaviour. `InsertEntry` stores an exact prefix and refuses a duplicate with `EntryExists`. `Lookup` is a longest-prefix match, computed by probing the address's own prefixes from the longest down. |
| `fabric.dfy` | `Pif`, the pure table semantics (`AddPifSpec`), the index invariant `Consistent`, the `PifTable` and `Vpc` classes, and persistence. |
| `fabric_gap.dfy` | Concrete tables that exhibit the missing rollback in `add_pif`, and an atomic registration variant. |

## The index invariant

`Consistent` is the invariant a table keeps. It has four parts:

- Every map key is the name of the `Pif` stored under it.
- No interface lists an endpoint twice.
- No endpoint belongs to two interfaces.
- The trie holds exactly the endpoints of the stored interfaces, each bound to
  its owner's name.

## Behaviour as the code writes it

The model follows `dataplane/src/nat/fabric.rs` as written, including the
behaviour its TODO at fabric.rs:98 questions.

**Duplicate names.** A duplicate interface name is refused with the trie's
`EntryExists` error, before anything is changed (fabric.rs:92-94).

**Failed registration.**

- A failed endpoint insert returns straight away.
- The endpoints inserted before it stay in the trie
  (`Fabric.InsertAllFailsAt` gives the exact trie left behind).
- The map is left without the interface.
- Registration is therefore not atomic. `Fabric.FailedAddPifLeavesOrphans` and
  the `FabricGap` module show that this breaks `Consistent`.
- `FabricGap.AddPifAtomic` is a validate-then-commit variant that would
  answer that TODO. It is not the repository's behaviour, and nothing else in
  the model uses it.

**Load errors.** A load that fails reports one error, `EndpointInsertFailed`,
and returns no table. The table it was building is dropped, so no partial
table escapes.

**Trie values on load.** The rebuilt trie binds each endpoint to
`pif.name`, not to the map key it was loaded under. These agree whenever keys
are names (`KeysAreNames`). The load contract therefore promises `Valid()`
only in that case.

**Iteration order.** The order of `HashMap::values()` during the rebuild is
unspecified. The loop picks the next interface by an arbitrary choice, so
every order is covered. Whether the load succeeds does not depend on the
order. It succeeds exactly when no endpoint is listed twice, within one
interface or across two.

## Model

| member | source | states |
|---|---|---|
| Fabric.NewPif | dataplane/src/nat/fabric.rs:23-30 | A new interface keeps the given name and vpc and has no endpoints and no ips. |
| Trie.InsertEntry | dataplane/src/nat/fabric.rs:97 | A trie insert succeeds exactly when the prefix is not stored. On success it adds that one binding and keeps every other. On failure it reports `EntryExists` and changes nothing. |
| Trie.PrefixTrie.constructor | dataplane/src/nat/fabric.rs:86 | A new trie is empty. |
| Trie.PrefixTrie.Insert | dataplane/src/nat/fabric.rs:97 | The in-place insert leaves the trie and returns the status exactly as `InsertEntry` describes. |
| Trie.Probe | dataplane/src/nat/fabric.rs:107 | Probing the address's prefixes of length at most k finds nothing exactly when no stored covering prefix is that short. Otherwise it returns the value of the longest such prefix. |
| Trie.Lookup | dataplane/src/nat/fabric.rs:107 | `find_ip` returns None exactly when no stored prefix covers the address. Otherwise it returns the value of a longest covering stored prefix. |
| Trie.LookupIsLongestMatch | dataplane/src/nat/fabric.rs:107 | Whenever p is a longest stored prefix covering the address, the lookup returns p's value. The longest match is unique. |
| Trie.NestedPrefixesResolveMostSpecific | dataplane/src/nat/fabric.rs:106-108 | With one prefix nested inside another, addresses in the inner one resolve to its owner and the rest of the outer one to the outer owner. All other addresses resolve to nothing. |
| Fabric.InsertAllOutcome | dataplane/src/nat/fabric.rs:96-99 | The endpoint loop succeeds exactly when the endpoints are pairwise distinct and none is already in the trie. Either way it keeps every old binding and adds only endpoints bound to the name. On success every endpoint is bound. |
| Fabric.InsertAllFailsAt | dataplane/src/nat/fabric.rs:96-99 | When the k-th endpoint is the first one already stored or repeating an earlier one, the loop fails with `EntryExists` and leaves exactly the old trie plus the endpoints before it, bound to the name. |
| Fabric.InsertAllOkBinds | dataplane/src/nat/fabric.rs:96-99 | A successful endpoint loop leaves the old trie extended by exactly the endpoints, each bound to the name. |
| Fabric.AddPifOutcome | dataplane/src/nat/fabric.rs:91-103 | A present name gives `EntryExists` and changes nothing. Registration succeeds exactly when the name is new, the endpoints are distinct and none is in the trie. Any failure leaves the name map unchanged. Success adds the interface under its name and its endpoints to the trie, keeping every old trie binding. |
| Fabric.EmptyTableConsistent | dataplane/src/nat/fabric.rs:83-88 | The empty table satisfies the index invariant. |
| Fabric.EntriesNamePresentPifs | dataplane/src/nat/fabric.rs:75-79 | In a consistent table every trie entry names an interface that is present and owns that prefix. |
| Fabric.AddPifKeepsConsistent | dataplane/src/nat/fabric.rs:96-102 | A successful registration preserves the index invariant. |
| Fabric.FailedAddPifLeavesOrphans | dataplane/src/nat/fabric.rs:96-101 | A registration of a new name that fails in the endpoint loop leaves each newly inserted trie entry naming that absent interface. The result is consistent only when the very first endpoint was refused, so nothing was inserted. |
| Fabric.ResolveNothing | dataplane/src/nat/fabric.rs:105-108 | In a consistent table, an address resolves to nothing exactly when no endpoint of any interface covers it. |
| Fabric.ResolveOwner | dataplane/src/nat/fabric.rs:105-108 | In a consistent table, a resolved name belongs to a present interface. One of its endpoints is the longest endpoint prefix of any interface covering the address. |
| Fabric.IndexedOwner | dataplane/src/nat/fabric.rs:105-108 | A longest stored match in an index of the name map is an endpoint of the interface it names, and no interface has a longer covering endpoint. |
| Fabric.IndexesDetermineEntries | dataplane/src/nat/fabric.rs:131-147 | At most one trie indexes a given name map, so the rebuilt trie is determined by the persisted map alone. |
| Fabric.RebuildStart | dataplane/src/nat/fabric.rs:132 | Before any interface is replayed, the empty trie indexes the empty part of the loaded map. |
| Fabric.RebuildStep | dataplane/src/nat/fabric.rs:135-144 | Replaying one more interface's endpoints successfully extends an index of the replayed part to an index of the replayed part plus that interface. |
| Fabric.RebuildComplete | dataplane/src/nat/fabric.rs:144-146 | Once every interface is replayed, the trie indexes the whole loaded map and the endpoints are disjoint. With keys equal to names, the table is consistent. |
| Fabric.RebuildFailure | dataplane/src/nat/fabric.rs:136-142 | A replay step fails only when the loaded map lists some endpoint twice. |
| Fabric.PifTable.constructor | dataplane/src/nat/fabric.rs:83-88 | A new table has an empty name map and an empty, freshly allocated trie, and is consistent. |
| Fabric.PifTable.AddPif | dataplane/src/nat/fabric.rs:91-103 | The in-place registration returns the status and leaves both maps exactly as `AddPifSpec` describes, including the no-rollback failure. A successful registration keeps the table consistent. |
| Fabric.PifTable.FindPifByEndpoint | dataplane/src/nat/fabric.rs:105-108 | Lookup is a read-only longest-prefix match over the trie. In a consistent table it finds nothing exactly when no endpoint covers the address. Otherwise it returns the owner of a longest covering endpoint. |
| Fabric.PifTable.Serialize | dataplane/src/nat/fabric.rs:112-121 | The persisted form is the name map alone. For a consistent table it is a map whose keys are names, whose endpoints are disjoint and which the current trie indexes. |
| Fabric.PifTable.Deserialize | dataplane/src/nat/fabric.rs:124-148 | Loading succeeds exactly when no endpoint is listed twice, in any iteration order. On success it returns a fresh table holding the loaded map and a trie that indexes it. With keys equal to names that table is consistent. |
| Fabric.PersistAndLoad | dataplane/src/nat/fabric.rs:112-147 | Persisting a consistent table and loading it back always succeeds. It yields the same name map and trie, so every address resolves as before. |
| Fabric.Vpc.constructor | dataplane/src/nat/fabric.rs:54-60 | A new vpc keeps the given name and vni and owns a freshly allocated empty table, which is consistent. |
| Fabric.Vpc.AddPif | dataplane/src/nat/fabric.rs:66-68 | A vpc registers exactly as its table does and keeps the table consistent on success. |
| Fabric.Vpc.FindPifByEndpoint | dataplane/src/nat/fabric.rs:70-72 | A vpc resolves exactly as its table does, with the same longest-owner guarantees. |
| Fabric.AddPifLeavesOtherVpc | dataplane/src/nat/fabric.rs:66-72 | Registering on one vpc acts on its own table as `AddPifSpec` describes and leaves any other vpc with its own table and trie unchanged: the same maps and the same lookup for every address. |
| Fabric.FreshVpcResolvesNothing | dataplane/src/nat/fabric.rs:54-72 | A newly created vpc resolves no address. |
| Fabric.TwoVpcsAreIsolated | dataplane/src/nat/fabric.rs:46-72 | Two vpcs are independent, even with the same vni. Each registration's status, and each vpc's later lookup, is what that vpc's own interface alone determines on an empty table. |
| FabricGap.AddBStopsAtSecondEndpoint | dataplane/src/nat/fabric.rs:96-101 | Registering an interface whose second endpoint is taken fails with `EntryExists`. The name map is unchanged, but the first endpoint stays in the trie bound to the new name. |
| FabricGap.FailedAddResolvesToAbsentPif | dataplane/src/nat/fabric.rs:96-101 | On a consistent table the failed registration makes an address that resolved to nothing resolve to an interface that is not in the table. It leaves the table inconsistent. |
| FabricGap.ReloadAfterFailedAddDropsOrphan | dataplane/src/nat/fabric.rs:131-147 | After that failure, the trie rebuilt from the persisted map differs from the live trie, and the orphaned address resolves to nothing again. |
| FabricGap.FailedAddOnTable | dataplane/src/nat/fabric.rs:91-108 | The same scenario on the in-place classes: the first registration succeeds, the second fails with `EntryExists`, and the live table then resolves the address to "b", which its name map does not hold, so the table is no longer valid. |
| FabricGap.AddPifAtomic | dataplane/src/nat/fabric.rs:96-98 | The atomic variant reports the same status as the code. On failure it changes nothing, on success it reaches the same state, and it always preserves the index invariant. |

## Left out

- `dpdk/src/socket.rs`, `dpdk-sys/src/dpdk.h`, `dpdk-sys/c/wrapper.h`, `dpdk-sys/build.rs`: foreign-function bindings and build plumbing. No fabric logic lives there.
- The prefix trie's internals: the trie is in a source file that is not part of this model. Only its observable behaviour is modelled: exact-duplicate refusal and longest-prefix match.
- Trie errors other than `EntryExists`: the trie's source is not part of this model. The fabric returns `insert`'s error unchanged (fabric.rs:97); the model takes `EntryExists` on an exact duplicate to be the trie's only insert failure.
- The serde wire format: persistence is modelled on the decoded name map. The decode error returned by the `?` at fabric.rs:131 is not modelled, so `Deserialize` starts from an already decoded map.
- The custom error message at fabric.rs:140-141: it is text only, modelled by the single `LoadError.EndpointInsertFailed`.
- The derived `Serialize`/`Deserialize` of `Pif` and `Vpc`: this is field-by-field format plumbing. The `Vpc` form reaches its table only through `PifTable`'s custom implementation, which is modelled.
- Prefix text parsing, canonicalisation and invalid prefixes: prefixes are modelled as already valid bit strings no longer than their family's width.
- `Vni` validation: a vni is an opaque value that is stored and never inspected.
- The `tracing::instrument` annotations: logging only.
- Concurrency and snapshot publication: the source has none in this file, and the model is sequential.
- The accessors `Pif::name`, `Pif::vpc`, `Pif::iter_ips` and `Vpc::name`: no separate logic, so they are modelled as the datatype's field selectors and the class's `const` fields.
- The derives `Clone`, `Debug`, `PartialEq` and `Default`: structural boilerplate. Datatype values are already immutable and compared by value.
- Fabric.PifTable.Deserialize: it promises a consistent table only when every map key equals the stored interface's name. This matches the code, whose rebuilt trie binds `pif.name` rather than the key.
