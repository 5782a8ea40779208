/** The registry adapter: built from a connection URL and the catalog, it
    registers, deregisters and refreshes instances in the backend. Each
    operation takes the store before the call and returns the error it
    reports, the store after the call and the mutations it issued. */
module CoatlAdapter {
  import opened Options
  import opened ServiceCatalog
  import opened Naming
  import opened Backend

  /** What an operation can report. */
  datatype Error =
    | NotRegistered(service: string)  // "coatl: service not registered: <service>"
    | BackendError(message: string)   // a backend error, passed through as it was

  /** The failures the backend may produce during one operation: of the
      `CheckRegisteredService` call and of the mutation that follows it. */
  datatype Faults = Faults(check: Option<string>, write: Option<string>)

  /** No backend call fails. */
  const NoFaults := Faults(None, None)

  /** The outcome of one operation. */
  datatype Step = Step(err: Option<Error>, after: Store, calls: seq<Call>)

  datatype Adapter = Adapter(endpoints: seq<string>, catalog: Catalog)

  /** The backend endpoint list: the URL's host over plain HTTP when the URL
      names a host, and none (the backend's default) otherwise. */
  function Endpoints(host: string): (urls: seq<string>)
    ensures |urls| <= 1
    ensures urls == [] <==> host == ""
    ensures forall u :: u in urls ==> |u| >= 7 && u[..7] == "http://" && u[7..] == host
  {
    if host != "" then ["http://" + host] else []
  }

  /** The adapter for a URL whose host is `host`, over the catalog read from
      the backend at start-up. */
  function New(host: string, catalog: Catalog): (a: Adapter)
    ensures a.endpoints == Endpoints(host)
    ensures a.catalog == catalog
  {
    Adapter(Endpoints(host), catalog)
  }

  /** Registers `inst` under its resolved service, provided the backend
      confirms the service is declared; `order` is the catalog iteration
      order of the name resolution. */
  function Register(a: Adapter, s: Store, inst: Instance, order: seq<string>, f: Faults): (r: Step)
    requires IsIterationOrder(order, a.catalog)
    ensures var name := ServiceName(a.catalog, order, inst);
            !CheckRegisteredService(s, name, f.check) ==> r == Step(Some(NotRegistered(name)), s, [])
    ensures var name := ServiceName(a.catalog, order, inst);
            CheckRegisteredService(s, name, f.check) ==>
              && r.calls == [AddInstance(name, inst.id, inst.ip, inst.port)]
              && (f.write.Some? ==> r.err == Some(BackendError(f.write.value)) && r.after == s)
              && (f.write.None? ==> && r.err == None
                                    && r.after.declared == s.declared
                                    && r.after.instances == s.instances[Key(name, inst.id) := Endpoint(inst.ip, inst.port)])
    ensures forall c :: c in r.calls ==> c.AddInstance? && c.service in s.declared
    ensures Gated(s) ==> Gated(r.after)
  {
    var name := ServiceName(a.catalog, order, inst);
    if !CheckRegisteredService(s, name, f.check) then
      Step(Some(NotRegistered(name)), s, [])
    else
      var call := AddInstance(name, InstanceName(inst), inst.ip, inst.port);
      if f.write.Some? then Step(Some(BackendError(f.write.value)), s, [call])
      else Step(None, Apply(s, call), [call])
  }

  /** Removes `inst` from its resolved service. When the check call does
      not confirm the service is declared, whether because the service is
      undeclared or because the call itself failed, the operation succeeds
      without touching the store, even if the entry is still there. */
  function Deregister(a: Adapter, s: Store, inst: Instance, order: seq<string>, f: Faults): (r: Step)
    requires IsIterationOrder(order, a.catalog)
    ensures var name := ServiceName(a.catalog, order, inst);
            !CheckRegisteredService(s, name, f.check) ==> r == Step(None, s, [])
    ensures var name := ServiceName(a.catalog, order, inst);
            CheckRegisteredService(s, name, f.check) ==>
              && r.calls == [RemoveInstance(name, inst.id)]
              && (f.write.Some? ==> r.err == Some(BackendError(f.write.value)) && r.after == s)
              && (f.write.None? ==> && r.err == None
                                    && r.after.declared == s.declared
                                    && r.after.instances == s.instances - {Key(name, inst.id)})
    ensures r.err.Some? <==> r.calls != [] && f.write.Some?
    ensures Gated(s) ==> Gated(r.after)
  {
    var name := ServiceName(a.catalog, order, inst);
    if !CheckRegisteredService(s, name, f.check) then
      Step(None, s, [])
    else
      var call := RemoveInstance(name, InstanceName(inst));
      if f.write.Some? then Step(Some(BackendError(f.write.value)), s, [call])
      else Step(None, Apply(s, call), [call])
  }

  /** Refreshing an instance is registering it again. */
  function Refresh(a: Adapter, s: Store, inst: Instance, order: seq<string>, f: Faults): (r: Step)
    requires IsIterationOrder(order, a.catalog)
    ensures r == Register(a, s, inst, order, f)
  {
    Register(a, s, inst, order, f)
  }

  /** Register as the source writes it: the service name is resolved anew
      for the check, for the error message and for the write, and each
      resolution ranges over the catalog in an iteration order of its own. */
  function RegisterAsWritten(a: Adapter, s: Store, inst: Instance,
                             checkOrder: seq<string>, messageOrder: seq<string>, addOrder: seq<string>,
                             f: Faults): (r: Step)
    requires IsIterationOrder(checkOrder, a.catalog)
    requires IsIterationOrder(messageOrder, a.catalog)
    requires IsIterationOrder(addOrder, a.catalog)
    ensures !CheckRegisteredService(s, ServiceName(a.catalog, checkOrder, inst), f.check) ==>
              r == Step(Some(NotRegistered(ServiceName(a.catalog, messageOrder, inst))), s, [])
    ensures CheckRegisteredService(s, ServiceName(a.catalog, checkOrder, inst), f.check) ==>
              && r.calls == [AddInstance(ServiceName(a.catalog, addOrder, inst), inst.id, inst.ip, inst.port)]
              && (f.write.Some? ==> r.err == Some(BackendError(f.write.value)) && r.after == s)
              && (f.write.None? ==> && r.err == None
                                    && r.after.declared == s.declared
                                    && r.after.instances == s.instances[Key(ServiceName(a.catalog, addOrder, inst), inst.id) := Endpoint(inst.ip, inst.port)])
  {
    if !CheckRegisteredService(s, ServiceName(a.catalog, checkOrder, inst), f.check) then
      Step(Some(NotRegistered(ServiceName(a.catalog, messageOrder, inst))), s, [])
    else
      var call := AddInstance(ServiceName(a.catalog, addOrder, inst), InstanceName(inst), inst.ip, inst.port);
      if f.write.Some? then Step(Some(BackendError(f.write.value)), s, [call])
      else Step(None, Apply(s, call), [call])
  }

  /** When no two declared services expect the same image, the repeated
      resolutions agree and the source's Register is the model's. */
  lemma RegisterAsWrittenAgrees(a: Adapter, s: Store, inst: Instance,
                                checkOrder: seq<string>, messageOrder: seq<string>, addOrder: seq<string>,
                                f: Faults)
    requires UniqueImages(a.catalog)
    requires IsIterationOrder(checkOrder, a.catalog)
    requires IsIterationOrder(messageOrder, a.catalog)
    requires IsIterationOrder(addOrder, a.catalog)
    ensures RegisterAsWritten(a, s, inst, checkOrder, messageOrder, addOrder, f)
            == Register(a, s, inst, checkOrder, f)
  {
    ServiceNameDeterministic(a.catalog, checkOrder, messageOrder, inst);
    ServiceNameDeterministic(a.catalog, checkOrder, addOrder, inst);
  }

  /** Two declared services "a" and "b" expect the same image "img", and
      only "a" is still declared in the backend. The check resolves the
      instance to "a" and passes; the write resolves it to "b" and adds an
      instance under a service the backend does not declare. */
  lemma RegisterAsWrittenBypassesGate()
    ensures var a := New("", map["a" := Details("img"), "b" := Details("img")]);
            var s := Store({"a"}, map[]);
            var inst := Instance("img", "x", "10.0.0.1", 80, "80");
            var r := RegisterAsWritten(a, s, inst, ["a", "b"], ["a", "b"], ["b", "a"], NoFaults);
            && Gated(s)
            && r.err == None
            && r.after.instances == map[Key("b", "x") := Endpoint("10.0.0.1", 80)]
            && !Gated(r.after)
  {
    var c := map["a" := Details("img"), "b" := Details("img")];
    var inst := Instance("img", "x", "10.0.0.1", 80, "80");
    assert !Text.HasSuffix("img", "-80");
    assert BaseName(inst) == "img";
    assert IsIterationOrder(["a", "b"], c);
    assert IsIterationOrder(["b", "a"], c);
    assert ServiceName(c, ["a", "b"], inst) == "a";
    assert ServiceName(c, ["b", "a"], inst) == "b";
  }

  /** Registering and then deregistering an instance, with no backend
      failure, leaves the store as it was apart from that instance's entry,
      which is gone. Each call ranges over the catalog in its own order;
      with unique images the two resolutions agree. */
  lemma RegisterThenDeregister(a: Adapter, s: Store, inst: Instance, o1: seq<string>, o2: seq<string>)
    requires UniqueImages(a.catalog)
    requires IsIterationOrder(o1, a.catalog) && IsIterationOrder(o2, a.catalog)
    requires Gated(s)
    ensures var r1 := Register(a, s, inst, o1, NoFaults);
            var r2 := Deregister(a, r1.after, inst, o2, NoFaults);
            && r2.err == None
            && r2.after.declared == s.declared
            && r2.after.instances == s.instances - {Key(ServiceName(a.catalog, o1, inst), inst.id)}
  {
    ServiceNameDeterministic(a.catalog, o1, o2, inst);
    var name := ServiceName(a.catalog, o1, inst);
    var key := Key(name, inst.id);
    var r1 := Register(a, s, inst, o1, NoFaults);
    var r2 := Deregister(a, r1.after, inst, o2, NoFaults);
    if name in s.declared {
      assert r2.after.instances == s.instances[key := Endpoint(inst.ip, inst.port)] - {key};
      assert s.instances[key := Endpoint(inst.ip, inst.port)] - {key} == s.instances - {key};
    } else {
      assert key !in s.instances;
      assert s.instances - {key} == s.instances;
    }
  }

  /** After a Deregister whose check and removal both succeeded, a second
      one with no removal failure succeeds and changes nothing, whatever
      order it ranges over the catalog in, provided images are unique. */
  lemma DeregisterIdempotent(a: Adapter, s: Store, inst: Instance, o1: seq<string>, o2: seq<string>,
                             f1: Faults, f2: Faults)
    requires UniqueImages(a.catalog)
    requires IsIterationOrder(o1, a.catalog) && IsIterationOrder(o2, a.catalog)
    requires f1.check.None? && f2.write.None?
    requires Deregister(a, s, inst, o1, f1).err == None
    ensures var r1 := Deregister(a, s, inst, o1, f1);
            var r2 := Deregister(a, r1.after, inst, o2, f2);
            r2.err == None && r2.after == r1.after
  {
    ServiceNameDeterministic(a.catalog, o1, o2, inst);
    var name := ServiceName(a.catalog, o1, inst);
    var key := Key(name, inst.id);
    var r1 := Deregister(a, s, inst, o1, f1);
    if name in s.declared {
      assert r1.after.instances - {key} == r1.after.instances;
    }
  }

  /** Without unique images the second Deregister can resolve to another
      service. When its catalog iteration order picks a different declared
      service that still holds an entry for the instance, it removes that
      entry: the store changes although the first call succeeded.
      `EveryMatchResolvable` gives such an order for every matching key. */
  lemma DeregisterTwiceOtherOrder(a: Adapter, s: Store, inst: Instance, o1: seq<string>, o2: seq<string>)
    requires IsIterationOrder(o1, a.catalog) && IsIterationOrder(o2, a.catalog)
    requires ServiceName(a.catalog, o1, inst) != ServiceName(a.catalog, o2, inst)
    requires Gated(s)
    requires ServiceName(a.catalog, o1, inst) in s.declared
    requires Key(ServiceName(a.catalog, o2, inst), inst.id) in s.instances
    ensures var r1 := Deregister(a, s, inst, o1, NoFaults);
            var r2 := Deregister(a, r1.after, inst, o2, NoFaults);
            && r1.err == None && r2.err == None
            && Key(ServiceName(a.catalog, o2, inst), inst.id) in r1.after.instances
            && Key(ServiceName(a.catalog, o2, inst), inst.id) !in r2.after.instances
            && r2.after != r1.after
  {
    var k2 := Key(ServiceName(a.catalog, o2, inst), inst.id);
    var r1 := Deregister(a, s, inst, o1, NoFaults);
    assert k2 in r1.after.instances;
    assert k2.service in r1.after.declared;
  }

  /** A Deregister that reports success has not necessarily removed the
      entry: a failed check call is reported as success and the entry of a
      declared service stays in the store. */
  lemma DeregisterSuccessKeepsEntryOnCheckFault(a: Adapter, s: Store, inst: Instance, order: seq<string>, f: Faults)
    requires IsIterationOrder(order, a.catalog)
    requires f.check.Some?
    requires Key(ServiceName(a.catalog, order, inst), inst.id) in s.instances
    ensures var r := Deregister(a, s, inst, order, f);
            && r.err == None
            && r.calls == []
            && Key(ServiceName(a.catalog, order, inst), inst.id) in r.after.instances
  {
  }

  /** Refreshing a registered instance with no backend failure reasserts the
      same entry: the store is as the first registration left it. Each call
      ranges over the catalog in its own order; with unique images the two
      resolutions agree. */
  lemma RefreshIdempotent(a: Adapter, s: Store, inst: Instance, o1: seq<string>, o2: seq<string>, f1: Faults)
    requires UniqueImages(a.catalog)
    requires IsIterationOrder(o1, a.catalog) && IsIterationOrder(o2, a.catalog)
    requires Register(a, s, inst, o1, f1).err == None
    ensures var r1 := Register(a, s, inst, o1, f1);
            var r2 := Refresh(a, r1.after, inst, o2, NoFaults);
            r2.err == None && r2.after == r1.after
  {
    ServiceNameDeterministic(a.catalog, o1, o2, inst);
    var name := ServiceName(a.catalog, o1, inst);
    var key := Key(name, inst.id);
    var r1 := Register(a, s, inst, o1, f1);
    assert r1.after.instances[key := Endpoint(inst.ip, inst.port)] == r1.after.instances;
  }

  /** The life of one instance: service "web" declares image "myorg/web";
      an instance named "myorg/web-8080" exposing port 8080 registers under
      "web" with its ID "abc123", and deregistering it removes that entry. */
  lemma Scenario()
    ensures var a := New("", map["web" := Details("myorg/web")]);
            var s := Store({"web"}, map[]);
            var inst := Instance("myorg/web-8080", "abc123", "10.0.0.5", 8080, "8080");
            var r1 := Register(a, s, inst, ["web"], NoFaults);
            var r2 := Deregister(a, r1.after, inst, ["web"], NoFaults);
            && r1.err == None
            && r1.calls == [AddInstance("web", "abc123", "10.0.0.5", 8080)]
            && r1.after.instances == map[Key("web", "abc123") := Endpoint("10.0.0.5", 8080)]
            && r2.err == None
            && r2.calls == [RemoveInstance("web", "abc123")]
            && r2.after == s
  {
    var c := map["web" := Details("myorg/web")];
    var inst := Instance("myorg/web-8080", "abc123", "10.0.0.5", 8080, "8080");
    Text.TrimAppended("myorg/web", "-8080");
    assert BaseName(inst) == "myorg/web";
    assert ServiceName(c, ["web"], inst) == "web";
    var key := Key("web", "abc123");
    assert map[key := Endpoint("10.0.0.5", 8080)] - {key} == map[];
  }
}
