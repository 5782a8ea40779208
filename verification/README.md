# etcd_coatl registry adapter, modelled in Dafny

This project models the `etcdcoatl` registry adapter of registrator. The
container runtime reports a running service instance with a name, ID, IP,
port and the origin's exposed port. The adapter works out which declared
service the instance belongs to, then records or removes the instance's
entry in a coatl backend.

Two pieces of logic are modelled:

- **Name resolution** (`Naming`, `ServiceCatalog`, `Text`). One trailing
  `"-" + ExposedPort` is stripped from the instance name. The catalog is
  the map of declared services read once when the adapter is built. If a
  catalog entry's image equals the stripped name, the first such entry in
  the catalog's iteration order supplies the service name. Otherwise the
  stripped name is used as it is. The instance name is the instance ID
  (`Naming.InstanceName`). Go leaves map iteration order unspecified, so
  here the order is an explicit parameter: any sequence that lists every
  catalog key exactly once (`IsIterationOrder`). The lemmas prove three
  things about it:
  - the result is a matching key whenever one exists;
  - the order is irrelevant when images are unique;
  - every matching key is the result under some order.
- **Register / Deregister / Refresh** (`CoatlAdapter`) as functions over an
  abstract backend store (`Backend.Store`). The store holds the set of
  declared services and a map from (service, instance) to (ip, port). Each
  operation returns three things: the error it reports, the store after the
  call, and the mutations it issued. Backend failures are inputs
  (`Faults`): one for the `CheckRegisteredService` call and one for the
  `AddInstance`/`RemoveInstance` call. Only the second one's error text is
  passed through unchanged. A failed check becomes "service not
  registered" in Register and is dropped in Deregister.

In the modelled `Register`, which resolves the service name once, the gate
means a successful write only ever adds an instance under a service the
backend declares. The source's Register does not guarantee this; see
"## Findings". `Backend.Gated` is the invariant "every instance entry
belongs to a declared service". The modelled Register and Deregister both
preserve it.

Two behaviours of the code are worth stating plainly:

- `CheckRegisteredService` can fail because the backend is unreachable, not
  only because the service is undeclared. Register reports any such failure
  as "service not registered". Deregister treats it as a silent success and
  leaves the entry in place.
- The adapter passes no TTL. Line 60 gives `AddInstance` only the service,
  ID, IP and port, and nothing in the file reads the instance's TTL, so any
  expiry of an entry is the backend's own.

## Model

| member | source | states |
|---|---|---|
| `Text.TrimAppended` | etcd_coatl/etcd_coatl.go:84-85 | trimming an appended suffix returns exactly the original string: one occurrence is removed, never more |
| `Naming.BaseName` | etcd_coatl/etcd_coatl.go:84-85 | if the name ends in `"-" + ExposedPort`, the base name plus that suffix is the name; otherwise the base name is the name unchanged |
| `ServiceCatalog.FindByImage` | etcd_coatl/etcd_coatl.go:87-92 | the key found is a catalog key whose image matches, and no earlier key in the iteration order matches; if none is found, no key in the order matches |
| `ServiceCatalog.FindByImageComplete` | etcd_coatl/etcd_coatl.go:87-93 | over a full iteration order, the search finds a key exactly when some declared service's image equals the searched name |
| `ServiceCatalog.FindByImageOrderIndependent` | etcd_coatl/etcd_coatl.go:87-91 | with unique images, any two iteration orders find the same key |
| `ServiceCatalog.EveryMatchReachable` | etcd_coatl/etcd_coatl.go:87-91 | every key whose image matches is found under some iteration order: the key moved to the front of any order |
| `Naming.ServiceName` | etcd_coatl/etcd_coatl.go:82-94 | the resolved name is a catalog key whose image equals the stripped base name when such a key exists, and is the base name otherwise |
| `Naming.BaseNameStripsPort` | etcd_coatl/etcd_coatl.go:84-85 | an instance named `n + "-" + p` that exposes port `p` has base name `n` |
| `Naming.SuffixStripped` | etcd_coatl/etcd_coatl.go:83-93 | an instance named `n + "-" + p` that exposes port `p`, with no image equal to `n`, resolves to `n` |
| `Naming.InstanceName` | etcd_coatl/etcd_coatl.go:96-98 | the instance name is the instance's ID, unchanged |
| `Naming.ServiceNameDeterministic` | etcd_coatl/etcd_coatl.go:87-91 | with unique images, the resolved name does not depend on the catalog iteration order |
| `Naming.EveryMatchResolvable` | etcd_coatl/etcd_coatl.go:87-91 | each declared service whose image equals the base name is the resolved name under some iteration order |
| `CoatlAdapter.New` | etcd_coatl/etcd_coatl.go:21-30 | the adapter's endpoints are the URL list built from the host, and its catalog is the given one (read from the backend in the source) |
| `CoatlAdapter.Endpoints` | etcd_coatl/etcd_coatl.go:22-25 | the endpoint list has at most one URL; it is empty exactly when the host is empty; its URL is `http://` followed by the host |
| `CoatlAdapter.Register` | etcd_coatl/etcd_coatl.go:56-64 | if the check fails, the result is a service-not-registered error with no call and no store change; otherwise exactly one `AddInstance(service, ID, IP, Port)` is issued and its error is returned unchanged; on success (service, ID) maps to (IP, Port) and nothing else changes; writes only go under declared services, so the gate invariant is preserved |
| `CoatlAdapter.Deregister` | etcd_coatl/etcd_coatl.go:67-76 | if the check fails, the result is success with no call and no store change; otherwise exactly one `RemoveInstance(service, ID)` is issued and its error is returned unchanged; on success the (service, ID) entry is gone and nothing else changes |
| `CoatlAdapter.Refresh` | etcd_coatl/etcd_coatl.go:78-80 | has exactly the outcome, store effect and issued calls of Register on the same input |
| `CoatlAdapter.RegisterThenDeregister` | etcd_coatl/etcd_coatl.go:56-75 | with unique images and no backend failure, Register followed by Deregister, each ranging over the catalog in its own order, leaves a gated store as it was, minus the instance's entry |
| `CoatlAdapter.DeregisterIdempotent` | etcd_coatl/etcd_coatl.go:67-75 | with unique images, after a Deregister whose check and removal both succeeded, a second one with no removal failure, in any catalog iteration order, succeeds and changes nothing |
| `CoatlAdapter.DeregisterTwiceOtherOrder` | etcd_coatl/etcd_coatl.go:67-75 | when the second Deregister's iteration order resolves the instance to another declared service holding an entry for it, both calls succeed and the second removes that other entry: without unique images repeated Deregisters are not idempotent |
| `CoatlAdapter.DeregisterSuccessKeepsEntryOnCheckFault` | etcd_coatl/etcd_coatl.go:67-70 | when the check call fails, Deregister reports success, issues no call and leaves the instance's entry in the store: success does not imply the entry is gone |
| `CoatlAdapter.RefreshIdempotent` | etcd_coatl/etcd_coatl.go:78-80 | with unique images, after a successful Register, a Refresh with no backend failure, in any catalog iteration order, succeeds and leaves the store exactly as the Register did |
| `CoatlAdapter.Scenario` | etcd_coatl/etcd_coatl.go:56-75 | service `web` with image `myorg/web`: instance `myorg/web-8080` registers as `web`/`abc123` at 10.0.0.5:8080; deregistering removes exactly that entry |
| `CoatlAdapter.RegisterAsWritten` | etcd_coatl/etcd_coatl.go:56-64 | Register as written: the checked name, the error-message name and the written name each come from a separate catalog iteration; once the check passes, the `AddInstance` error is returned unchanged, and on success (add-order name, ID) maps to (IP, Port) and nothing else changes |
| `CoatlAdapter.RegisterAsWrittenAgrees` | etcd_coatl/etcd_coatl.go:57-60 | with unique images, the as-written Register equals the modelled Register |
| `CoatlAdapter.RegisterAsWrittenBypassesGate` | etcd_coatl/etcd_coatl.go:57-60 | with two services sharing an image, the as-written Register passes the check for one service and then writes under the other, undeclared service |

## Findings

| source | as written | input that shows it | evidently intended | confidence | as-written member | corrected member |
|---|---|---|---|---|---|---|
| etcd_coatl/etcd_coatl.go:57-60 | `serviceName` is called once for the check and again for the write, and each call ranges over the catalog map in its own order | catalog `a` and `b` both with image `img`, only `a` declared in the backend, instance named `img`: the check resolves to `a` and passes, the write resolves to `b` | resolve the name once and use it for both the check and the write | low, not executed; only catalogs with a shared image are affected | `CoatlAdapter.RegisterAsWritten` (`CoatlAdapter.RegisterAsWrittenBypassesGate`) | `CoatlAdapter.Register` |

## Left out

- The `init` hookup to the host's plugin registry (lines 15-17). It is registration with the host runtime and has no behaviour of its own.
- `readInServices`, which does JSON decoding of the declared services and calls `log.Fatal` on a corrupt document (lines 42-50). The catalog is an input to `New` instead.
- `Ping` and the coatl backend client: `CheckRegisteredService`, `AddInstance`, `RemoveInstance`, `ForeachServiceInstance`, TTLs and the transport. That code is not part of this model. Its calls appear only through their effect on the abstract store.
- A failed `AddInstance`/`RemoveInstance` is assumed to leave the store unchanged. The backend's real behaviour on partial failure is not visible.
- Entry expiry and the JSON shape of the stored record. The adapter passes no TTL (see above), and both are up to the backend client.
- The `log.Println` calls (lines 62, 73).
- Concurrency between calls. Each operation is modelled as one sequential step.
- Strings are modelled as character sequences, not UTF-8 bytes. Suffix matching gives the same answer on valid UTF-8.
- `CoatlAdapter.Deregister`: resolves the service name once. The source resolves it twice (lines 68 and 71), which matters only when two services share an image, as in the finding.
- `CoatlAdapter.RegisterThenDeregister`: holds only when images are unique. With a shared image the two calls may range over the catalog in different orders, and Deregister can then remove another service's entry and leave this one.
- `CoatlAdapter.DeregisterIdempotent`: holds only when images are unique; `CoatlAdapter.DeregisterTwiceOtherOrder` shows a second call removing another service's entry otherwise.
- `CoatlAdapter.RefreshIdempotent`: holds only when images are unique. With a shared image, a Refresh under another order can write a second entry under another service.
- `CoatlAdapter.Register`: resolves the service name once, the corrected form of the finding above. `CoatlAdapter.RegisterAsWritten` keeps the source's three resolutions.
