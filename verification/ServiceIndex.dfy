/** The two-level index of services: PhoenixLibrary/NetworkManager.cpp:26-117,
    171-178 and PhoenixLibrary/NetworkListener.cpp:75-107. */
module ServiceIndex {
  import opened Machine
  import opened Capabilities

  /** A service: what PhoenixLibrary/NetworkService.h declares, with its name and
      its bind endpoint fixed and the latter in canonical form. */
  class NetworkService {
    const name: bytes
    const bind: Endpoint
    var listener: NetworkListener?

    constructor (name: bytes, bind: Endpoint)
      ensures this.name == name && this.bind == bind && listener == null
    {
      this.name := name;
      this.bind := bind;
      listener := null;
    }
  }

  class NetworkListener {
    const endpoint: Endpoint
    var services: map<bytes, NetworkService>

    constructor (endpoint: Endpoint)
      ensures this.endpoint == endpoint && services == map[]
    {
      this.endpoint := endpoint;
      services := map[];
    }

    method RegisterService(service: NetworkService?) returns (ok: bool)
      modifies this`services
      ensures ok <==> service != null
      ensures services == if service == null then old(services) else old(services)[service.name := service]
    {
      if service == null { return false; }
      services := services[service.name := service];
      ok := true;
    }

    method UnregisterService(name: bytes) returns (ok: bool)
      modifies this`services
      ensures ok <==> name in old(services)
      ensures services == old(services) - {name}
    {
      if name !in services {
        assert services - {name} == services;
        return false;
      }
      services := services - {name};
      ok := true;
    }
  }

  /** The search loop for an emptied listener: a pass erases the element at the
      cursor or leaves the cursor where it is. */
  datatype Search = At(i: nat) | Erased(i: nat) | End

  function Pass(endpoints: seq<Endpoint>, target: Endpoint, s: Search): Search {
    if !s.At? then s
    else if s.i >= |endpoints| then End
    else if endpoints[s.i] == target then Erased(s.i)
    else At(s.i)
  }

  function Passes(endpoints: seq<Endpoint>, target: Endpoint, k: nat): Search {
    if k == 0 then At(0) else Pass(endpoints, target, Passes(endpoints, target, k - 1))
  }

  /** The loop ends exactly when there is nothing to search or the first element is
      the one sought, however long it runs. */
  lemma SearchEnds(endpoints: seq<Endpoint>, target: Endpoint)
    ensures (exists k :: !Passes(endpoints, target, k).At?) <==> endpoints == [] || endpoints[0] == target
    ensures endpoints != [] && endpoints[0] == target ==> Passes(endpoints, target, 1) == Erased(0)
  {
    if endpoints == [] || endpoints[0] == target {
      assert Passes(endpoints, target, 0) == At(0);
      assert !Passes(endpoints, target, 1).At?;
    } else {
      forall k ensures Passes(endpoints, target, k) == At(0) { SearchStays(endpoints, target, k); }
    }
  }

  lemma {:induction false} SearchStays(endpoints: seq<Endpoint>, target: Endpoint, k: nat)
    requires endpoints != [] && endpoints[0] != target
    ensures Passes(endpoints, target, k) == At(0)
  {
    if k > 0 { SearchStays(endpoints, target, k - 1); }
  }

  function Endpoints(listeners: seq<NetworkListener>): (r: seq<Endpoint>)
    ensures |r| == |listeners| && forall i :: 0 <= i < |r| ==> r[i] == listeners[i].endpoint
  {
    seq(|listeners|, i requires 0 <= i < |listeners| => listeners[i].endpoint)
  }

  /** How a call of `unregisterService` ends, if it does. */
  datatype Outcome = Returned(found: bool) | Spins

  /** The two levels as values: what the manager maps, the listeners, what each
      maps, and the listener each registered service points to. */
  datatype Index = Index(
    services: map<bytes, NetworkService>,
    listeners: seq<NetworkListener>,
    served: map<NetworkListener, map<bytes, NetworkService>>,
    own: map<bytes, NetworkListener?>)

  ghost predicate DistinctEndpoints(listeners: seq<NetworkListener>) {
    forall i, j :: 0 <= i < j < |listeners| ==> listeners[i].endpoint != listeners[j].endpoint
  }

  ghost predicate SameListeners(x: Index) {
    && (forall l :: l in x.served ==> l in x.listeners)
    && (forall l :: l in x.listeners ==> l in x.served)
  }

  ghost predicate Held(x: Index, n: bytes, s: NetworkService, l: NetworkListener?) {
    s.name == n && l != null && l in x.served && l.endpoint == s.bind && n in x.served[l]
  }

  ghost predicate AllHeld(x: Index) {
    x.own.Keys == x.services.Keys && forall n :: n in x.services ==> Held(x, n, x.services[n], x.own[n])
  }

  ghost predicate NothingElse(x: Index) {
    forall l, n :: l in x.served && n in x.served[l] ==>
      n in x.services && x.served[l][n] == x.services[n] && n in x.own && x.own[n] == l
  }

  /** Every name of the manager is served by its service's own listener, and by no
      other; listeners serve nothing else. */
  ghost predicate Agree(x: Index) {
    DistinctEndpoints(x.listeners) && SameListeners(x) && AllHeld(x) && NothingElse(x)
  }

  function Withdrawn(x: Index, n: bytes, l: NetworkListener): Index
    requires l in x.served
  {
    x.(services := x.services - {n}, served := x.served[l := x.served[l] - {n}], own := x.own - {n})
  }

  function Installed(x: Index, s: NetworkService, l: NetworkListener): Index
    requires l in x.served
  {
    x.(services := x.services[s.name := s],
       served := x.served[l := x.served[l][s.name := s]],
       own := x.own[s.name := l])
  }

  lemma WithdrawnOnly(x: Index, n: bytes, l: NetworkListener)
    requires NothingElse(x) && l in x.served && n in x.services && n in x.own && x.own[n] == l
    ensures NothingElse(Withdrawn(x, n, l))
  {}

  lemma InstalledOnly(x: Index, s: NetworkService, l: NetworkListener)
    requires NothingElse(x) && l in x.served && s.name !in x.services
    ensures NothingElse(Installed(x, s, l))
  {}

  lemma WithdrawnAgrees(x: Index, n: bytes)
    requires Agree(x) && n in x.services
    ensures Agree(Withdrawn(x, n, x.own[n]))
  {
    var y := Withdrawn(x, n, x.own[n]);
    hide DistinctEndpoints;
    WithdrawnOnly(x, n, x.own[n]);
    hide NothingElse;
    forall m | m in y.services ensures Held(y, m, y.services[m], y.own[m]) {
      assert Held(x, m, x.services[m], x.own[m]);
    }
  }

  lemma InstalledAgrees(x: Index, s: NetworkService, l: NetworkListener)
    requires Agree(x) && l in x.served && l.endpoint == s.bind && s.name !in x.services
    ensures Agree(Installed(x, s, l))
  {
    var y := Installed(x, s, l);
    hide DistinctEndpoints;
    InstalledOnly(x, s, l);
    hide NothingElse;
    forall m | m in y.services ensures Held(y, m, y.services[m], y.own[m]) {
      if m != s.name { assert Held(x, m, x.services[m], x.own[m]); }
    }
  }

  lemma FirstOnce(x: Index)
    requires Agree(x) && x.listeners != []
    ensures forall l :: l in x.listeners[1..] ==> l in x.listeners && l != x.listeners[0]
    ensures forall l :: l in x.listeners && l != x.listeners[0] ==> l in x.listeners[1..]
  {}

  /** An empty listener in front may go, and a new one may come. */
  lemma WithoutFirstAgrees(x: Index)
    requires Agree(x) && x.listeners != [] && x.served[x.listeners[0]] == map[]
    ensures Agree(x.(listeners := x.listeners[1..], served := x.served - {x.listeners[0]}))
  {}

  lemma WithNewAgrees(x: Index, l: NetworkListener)
    requires Agree(x) && forall k :: k in x.listeners ==> k.endpoint != l.endpoint
    ensures Agree(x.(listeners := [l] + x.listeners, served := x.served[l := map[]]))
  {
    assert l !in x.listeners;
  }

  /** A name maps to a service in the manager exactly when one listener maps it to
      that service, no other listener knows the name, and that listener is the
      service's own. */
  lemma OneListener(x: Index, n: bytes, s: NetworkService)
    requires Agree(x)
    ensures (n in x.services && x.services[n] == s) <==>
      (exists l :: l in x.served && n in x.served[l] && x.served[l][n] == s && n in x.own && x.own[n] == l)
    ensures forall l, k :: l in x.served && k in x.served && n in x.served[l] && n in x.served[k] ==> l == k
  {}

  class NetworkManager {
    var services: map<bytes, NetworkService>
    var listeners: seq<NetworkListener>

    ghost function Served(): map<NetworkListener, map<bytes, NetworkService>>
      reads this, listeners
    {
      map l | l in listeners :: l.services
    }

    ghost function Owners(): map<bytes, NetworkListener?>
      reads this, services.Values
    {
      map n | n in services :: services[n].listener
    }

    ghost function View(): (x: Index)
      reads this, listeners, services.Values
    {
      Index(services, listeners, Served(), Owners())
    }

    /** Manager and listeners agree. */
    ghost predicate Valid()
      reads this, listeners, services.Values
    {
      Agree(View())
    }

    constructor ()
      ensures Valid() && services == map[] && listeners == []
    {
      services, listeners := map[], [];
    }

    /** The loop at the head of `registerService`. */
    method FindListener(bind: Endpoint) returns (i: nat)
      ensures i <= |listeners| && (i < |listeners| <==> bind in Endpoints(listeners))
      ensures i < |listeners| ==> listeners[i].endpoint == bind
    {
      i := 0;
      while i < |listeners|
        invariant i <= |listeners| && forall j :: 0 <= j < i ==> Endpoints(listeners)[j] != bind
      {
        assert Endpoints(listeners)[i] == listeners[i].endpoint;
        if listeners[i].endpoint.port == bind.port && listeners[i].endpoint.address == bind.address { break; }
        i := i + 1;
      }
    }

    /** A new listener goes to the front. */
    method ListenerFor(bind: Endpoint) returns (l: NetworkListener)
      requires Valid()
      modifies this`listeners
      ensures Valid() && l in listeners && l.endpoint == bind
      ensures listeners == old(listeners)
        || (listeners == [l] + old(listeners) && fresh(l) && l.services == map[])
      ensures bind in Endpoints(old(listeners)) <==> listeners == old(listeners)
    {
      hide Agree;
      var i := FindListener(bind);
      if i == |listeners| {
        l := AddListener(bind);
      } else {
        l := listeners[i];
      }
    }

    method AddListener(bind: Endpoint) returns (l: NetworkListener)
      requires Valid() && bind !in Endpoints(listeners)
      modifies this`listeners
      ensures Valid() && l.endpoint == bind
      ensures listeners == [l] + old(listeners) && fresh(l) && l.services == map[]
    {
      hide Agree;
      l := new NetworkListener(bind);
      ghost var x := View();
      assert forall k :: k in listeners ==> k.endpoint in Endpoints(listeners);
      WithNewAgrees(x, l);
      listeners := [l] + listeners;
      assert Owners() == x.own;
      assert Served() == x.served[l := map[]];
    }

    /** `registerService`; a component may veto. A service of the same name is
        replaced, wherever it is served. */
    method RegisterService(service: NetworkService?, vetoed: bool) returns (ok: bool)
      requires Valid()
      modifies this, listeners, if service == null then {} else {service}
      ensures Valid()
      ensures ok <==> service != null && !vetoed
      ensures services == if ok then old(services)[service.name := service] else old(services)
      ensures ok ==> service.listener != null && service.listener in listeners
      ensures ok ==> service.listener.endpoint == service.bind
      ensures forall l :: l in listeners ==> l in old(listeners) || fresh(l)
      ensures service == null || service.bind in Endpoints(old(listeners)) ==> listeners == old(listeners)
      ensures service != null ==> service.bind in Endpoints(listeners)
      ensures service != null && !ok ==> service.listener == old(service.listener)
      ensures |old(listeners)| <= |listeners| <= |old(listeners)| + 1
      ensures listeners[|listeners| - |old(listeners)|..] == old(listeners)
    {
      hide Agree;
      if service == null { return false; }
      hide Valid, View, Endpoints;
      var l := ListenerFor(service.bind);
      if vetoed { return false; }
      Replace(service, l);
      ok := true;
    }

    /** The second half of `registerService`. */
    method Replace(service: NetworkService, l: NetworkListener)
      requires Valid() && l in listeners && l.endpoint == service.bind
      modifies this`services, listeners, service
      ensures Valid() && listeners == old(listeners) && service.listener == l
      ensures services == old(services)[service.name := service]
    {
      hide Agree;
      if service.name in services {
        var _ := Withdraw(service.name);
      }
      Install(service, l);
    }

    /** A name leaves its listener and the manager. */
    method Withdraw(name: bytes) returns (l: NetworkListener)
      requires Valid() && name in services
      modifies this`services, listeners
      ensures Valid() && listeners == old(listeners) && services == old(services) - {name}
      ensures l == old(services[name].listener) && l in listeners
      ensures l.services == old(l.services) - {name} && name in old(l.services)
    {
      hide Agree;
      ghost var x := View();
      WithdrawnAgrees(x, name);
      OwnListener(x, name);
      l := services[name].listener;
      var _ := l.UnregisterService(name);
      services := services - {name};
      assert Served() == x.served[l := x.served[l] - {name}];
      assert Owners() == x.own - {name};
    }

    method Install(service: NetworkService, l: NetworkListener)
      requires Valid() && l in listeners && l.endpoint == service.bind && service.name !in services
      modifies this`services, listeners, service
      ensures Valid() && listeners == old(listeners) && service.listener == l
      ensures services == old(services)[service.name := service]
    {
      hide Agree;
      ghost var x := View();
      NotAmong(x, service);
      services := services[service.name := service];
      service.listener := l;
      assert Owners() == x.own[service.name := l];
      var _ := l.RegisterService(service);
      assert Served() == x.served[l := x.served[l][service.name := service]];
      assert View() == Installed(x, service, l);
      InstalledAgrees(x, service, l);
    }

    /** `unregisterService`: the search for an emptied listener does not advance, so
        the call comes back only if the listener is not emptied or is the first. */
    method UnregisterService(name: bytes) returns (outcome: Outcome)
      requires Valid()
      modifies this, listeners
      ensures Valid()
      ensures services == old(services) - {name}
      ensures name !in old(services) ==> outcome == Returned(false) && listeners == old(listeners)
      ensures name in old(services) ==>
        var l := old(services[name].listener);
        var spins := forall k :: Passes(Endpoints(old(listeners)), l.endpoint, k).At?;
        && (outcome == Spins <==> old(l.services).Keys == {name} && spins)
        && (spins <==> old(listeners)[0] != l)
        && (outcome != Spins ==> outcome == Returned(true))
        && listeners
          == if old(l.services).Keys == {name} && outcome != Spins then old(listeners)[1..] else old(listeners)
    {
      hide Agree;
      if name !in services {
        assert services - {name} == services;
        return Returned(false);
      }
      var l := Withdraw(name);
      SameEndpoint(View(), l);
      SearchEnds(Endpoints(listeners), l.endpoint);
      assert l.services.Keys == old(l.services.Keys) - {name};
      outcome := Returned(true);
      if l.services == map[] {
        assert forall n :: n in old(l.services) && n != name ==> n in l.services;
        assert old(l.services).Keys == {name};
        if listeners[0].endpoint.port == l.endpoint.port && listeners[0].endpoint.address == l.endpoint.address {
          RemoveFirst();
        } else {
          outcome := Spins;
        }
      } else {
        assert l.services.Keys != {};
      }
    }

    method RemoveFirst()
      requires Valid() && listeners != [] && listeners[0].services == map[]
      modifies this`listeners
      ensures Valid() && listeners == old(listeners)[1..]
    {
      hide Agree;
      ghost var x := View();
      WithoutFirstAgrees(x);
      FirstOnce(x);
      listeners := listeners[1..];
      assert View() == x.(listeners := listeners, served := x.served - {x.listeners[0]});
    }

    lemma OnlyService(n: bytes)
      requires Valid() && services.Keys == {n}
      ensures services[n].listener != null && services[n].listener in listeners
      ensures services[n].listener.services.Keys == {n}
    {
      OnlyOne(View(), n);
    }

    lemma OnlyNames(n: bytes, m: bytes)
      requires Valid() && services.Keys == {n, m} && n != m && services[n].bind != services[m].bind
      ensures services[n].listener != null && services[n].listener in listeners
      ensures services[n].listener.services.Keys == {n}
    {
      OnlyName(View(), n, m);
    }

    /** `find`: what it returns is served under its name by its own listener. */
    method Find(name: bytes) returns (service: NetworkService?)
      requires Valid()
      ensures service == null <==> name !in services
      ensures service != null ==>
        && service.name == name && service.listener != null && service.listener in listeners
        && service.listener.endpoint == service.bind
        && name in service.listener.services && service.listener.services[name] == service
      ensures service != null ==>
        forall l :: l in listeners && name in l.services ==> l == service.listener
    {
      service := if name in services then services[name] else null;
    }
  }

  lemma OwnListener(x: Index, n: bytes)
    requires Agree(x) && n in x.services
    ensures n in x.own && x.own[n] != null && x.own[n] in x.served && x.own[n] in x.listeners
    ensures n in x.served[x.own[n]]
  {}

  lemma NotAmong(x: Index, s: NetworkService)
    requires Agree(x) && s.name !in x.services
    ensures forall n :: n in x.services ==> x.services[n] != s
  {}

  lemma SameEndpoint(x: Index, l: NetworkListener)
    requires Agree(x) && l in x.listeners
    ensures x.listeners[0].endpoint == l.endpoint <==> x.listeners[0] == l
  {}

  /** Removing the last service of a listener that is not the first. */
  method RemoveBehind(manager: NetworkManager, name: bytes) returns (outcome: Outcome)
    requires manager.Valid() && name in manager.services && |manager.listeners| == 2
    requires manager.services[name].listener == manager.listeners[1] != manager.listeners[0]
    requires manager.listeners[1].services.Keys == {name}
    modifies manager, manager.listeners
    ensures outcome == Spins
  {
    hide NetworkManager.Valid, NetworkManager.View, Endpoints;
    outcome := manager.UnregisterService(name);
  }

  /** A sequence of calls after which the search goes on for ever: two services at
      different endpoints, and the one registered first removed. */
  method RemovedServiceSpins(a: NetworkService, b: NetworkService) returns (outcome: Outcome)
    requires a.name != b.name && a.bind != b.bind
    modifies a, b
    ensures outcome == Spins
  {
    hide Agree, NetworkManager.Valid, NetworkManager.View;
    var manager := new NetworkManager();
    var first := manager.RegisterService(a, false);
    ghost var own := a.listener;
    assert manager.listeners == [own];
    assert Endpoints(manager.listeners) == [a.bind];
    var second := manager.RegisterService(b, false);
    manager.OnlyNames(a.name, b.name);
    assert manager.listeners[1..] == [own];
    ghost var top := manager.listeners[0];
    assert top in manager.listeners && top.endpoint == b.bind && fresh(top);
    assert manager.listeners == [top, own];
    outcome := RemoveBehind(manager, a.name);
  }

  /** A vetoed registration is enough: its listener stays, in front of the other. */
  method VetoedServiceSpins(a: NetworkService, b: NetworkService) returns (outcome: Outcome)
    requires a.name != b.name && a.bind != b.bind
    modifies a, b
    ensures outcome == Spins
  {
    hide Agree, NetworkManager.Valid, NetworkManager.View;
    var manager := new NetworkManager();
    var first := manager.RegisterService(b, false);
    ghost var own := b.listener;
    assert manager.listeners == [own];
    assert Endpoints(manager.listeners) == [b.bind];
    var second := manager.RegisterService(a, true);
    manager.OnlyService(b.name);
    assert manager.listeners[1..] == [own];
    ghost var top := manager.listeners[0];
    assert top in manager.listeners && top.endpoint == a.bind && fresh(top);
    assert manager.listeners == [top, own];
    outcome := RemoveBehind(manager, b.name);
  }

  lemma OnlyOne(x: Index, n: bytes)
    requires Agree(x) && x.services.Keys == {n}
    ensures n in x.own && x.own[n] != null && x.own[n] in x.served && x.served[x.own[n]].Keys == {n}
  {
    assert Held(x, n, x.services[n], x.own[n]);
    assert forall o :: o in x.served[x.own[n]] ==> o in x.services;
  }

  lemma OnlyName(x: Index, n: bytes, m: bytes)
    requires Agree(x) && x.services.Keys == {n, m} && n != m
    requires x.services[n].bind != x.services[m].bind
    ensures n in x.own && x.own[n] != null && x.own[n] in x.served && x.served[x.own[n]].Keys == {n}
  {
    assert Held(x, n, x.services[n], x.own[n]) && Held(x, m, x.services[m], x.own[m]);
    var served := x.served[x.own[n]];
    assert forall o :: o in served ==> o in x.services;
    assert m !in served;
  }
}
