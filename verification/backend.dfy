/** The key-value backend as an abstract store. Its client code is not part
    of this model, so each call the adapter makes is given by its effect on
    the store; a backend failure is an input (`fault`) that the call reports
    unchanged, leaving the store as it was. */
module Backend {
  import opened Options

  /** Where an instance can be reached. */
  datatype Endpoint = Endpoint(ip: string, port: int)

  /** One instance entry is kept per (service, instance) pair. */
  datatype Key = Key(service: string, instance: string)

  /** The services declared in the backend and the instances registered
      under them. */
  datatype Store = Store(declared: set<string>, instances: map<Key, Endpoint>)

  /** The mutations the adapter can issue. */
  datatype Call =
    | AddInstance(service: string, instance: string, ip: string, port: int)
    | RemoveInstance(service: string, instance: string)
  {
    function Target(): Key {
      Key(service, instance)
    }
  }

  /** Every registered instance belongs to a declared service: the safety
      property the registration gate exists to keep. */
  ghost predicate Gated(s: Store) {
    forall k :: k in s.instances ==> k.service in s.declared
  }

  /** The store after a successful call. Adding overwrites the entry for the
      key; removing an absent entry is not an error. */
  function Apply(s: Store, call: Call): (s': Store)
    ensures s'.declared == s.declared
    ensures forall k :: k != call.Target() ==> (k in s'.instances <==> k in s.instances)
    ensures forall k :: k != call.Target() && k in s.instances ==> s'.instances[k] == s.instances[k]
    ensures call.AddInstance? ==> call.Target() in s'.instances && s'.instances[call.Target()] == Endpoint(call.ip, call.port)
    ensures call.RemoveInstance? ==> call.Target() !in s'.instances
  {
    match call
    case AddInstance(svc, id, ip, port) =>
      s.(instances := s.instances[Key(svc, id):= Endpoint(ip, port)])
    case RemoveInstance(svc, id) =>
      s.(instances := s.instances - {Key(svc, id)})
  }

  /** `CheckRegisteredService` returns no error exactly when the backend
      answers and the service is declared. */
  predicate CheckRegisteredService(s: Store, service: string, fault: Option<string>) {
    fault.None? && service in s.declared
  }
}
