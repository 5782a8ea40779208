/** Name resolution: which declared service an instance reported by the
    container runtime belongs to, and under which instance name it is kept. */
module Naming {
  import opened Options
  import opened Text
  import opened ServiceCatalog

  /** The fields of a runtime service instance the adapter reads. */
  datatype Instance = Instance(
    name: string,         // may carry a trailing "-<exposed port>"
    id: string,
    ip: string,
    port: int,
    exposedPort: string)  // the origin's exposed port, as text

  /** The suffix the runtime sometimes appends to the instance name. */
  function PortSuffix(inst: Instance): string {
    "-" + inst.exposedPort
  }

  /** The instance name with one trailing port suffix removed, if present. */
  function BaseName(inst: Instance): (base: string)
    ensures HasSuffix(inst.name, PortSuffix(inst)) ==> base + PortSuffix(inst) == inst.name
    ensures !HasSuffix(inst.name, PortSuffix(inst)) ==> base == inst.name
  {
    TrimSuffix(inst.name, PortSuffix(inst))
  }

  /** What the resolved name must be, independent of any iteration order:
      a declared service expecting the base name as its image if there is
      one, and otherwise the base name itself. */
  ghost predicate Resolves(c: Catalog, inst: Instance, name: string) {
    var base := BaseName(inst);
    if Declares(c, base) then name in c && c[name].image == base
    else name == base
  }

  /** The service an instance registers under: the base name, overridden by
      the first declared service, in catalog iteration order `order`, whose
      image equals it. */
  function ServiceName(c: Catalog, order: seq<string>, inst: Instance): (name: string)
    requires IsIterationOrder(order, c)
    ensures Resolves(c, inst, name)
  {
    FindByImageComplete(c, order, BaseName(inst));
    match FindByImage(c, order, BaseName(inst))
    case Some(k) => k
    case None => BaseName(inst)
  }

  /** The instance is kept under its runtime ID. */
  function InstanceName(inst: Instance): (r: string)
    ensures r == inst.id
  {
    inst.id
  }

  /** The base name of an instance named `n + "-" + p` whose exposed port
      is `p` is `n`: exactly the one port suffix is removed. */
  lemma BaseNameStripsPort(inst: Instance, n: string)
    requires inst.name == n + "-" + inst.exposedPort
    ensures BaseName(inst) == n
  {
    TrimAppended(n, PortSuffix(inst));
  }

  /** Such an instance whose base name `n` is no declared image resolves
      to `n`. */
  lemma SuffixStripped(c: Catalog, order: seq<string>, inst: Instance, n: string)
    requires IsIterationOrder(order, c)
    requires inst.name == n + "-" + inst.exposedPort
    requires !Declares(c, n)
    ensures ServiceName(c, order, inst) == n
  {
    BaseNameStripsPort(inst, n);
  }

  /** With unique images the resolved name does not depend on the order in
      which the catalog is iterated. */
  lemma ServiceNameDeterministic(c: Catalog, o1: seq<string>, o2: seq<string>, inst: Instance)
    requires UniqueImages(c)
    requires IsIterationOrder(o1, c) && IsIterationOrder(o2, c)
    ensures ServiceName(c, o1, inst) == ServiceName(c, o2, inst)
  {
    FindByImageOrderIndependent(c, o1, o2, BaseName(inst));
  }

  /** Conversely, every declared service whose image equals the base name is
      the resolved name under some iteration order. */
  lemma EveryMatchResolvable(c: Catalog, order: seq<string>, inst: Instance, k: string)
    requires IsIterationOrder(order, c)
    requires k in c && c[k].image == BaseName(inst)
    ensures IsIterationOrder([k] + Without(order, k), c)
    ensures ServiceName(c, [k] + Without(order, k), inst) == k
  {
    EveryMatchReachable(c, order, k);
  }
}
