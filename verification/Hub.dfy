/** The registry and the relay table of Plugin_Interserver/InterserverService.cpp
    as values, and what is proved about them. */
module Hub {
  import opened Machine
  import opened Capabilities
  import opened Messages

  /** A connection of the hub. */
  type Conn = nat

  /** An entry of the multimap: equal names keep the order of insertion. */
  datatype Entry = Entry(cap: Capability, conn: Conn)
  type Registry = seq<Entry>

  predicate Registered(reg: Registry, cap: Capability) {
    exists i :: 0 <= i < |reg| && reg[i].cap == cap
  }

  ghost predicate NoTwins(reg: Registry) {
    forall i, j :: 0 <= i < j < |reg| ==> reg[i].cap != reg[j].cap
  }

  function Register(reg: Registry, cap: Capability, c: Conn): Registry {
    if Registered(reg, cap) then reg else reg + [Entry(cap, c)]
  }

  /** The first entry with this name and endpoint, or |reg|. */
  function FirstMatch(reg: Registry, cap: Capability): (i: nat)
    ensures i <= |reg|
    ensures i < |reg| ==> reg[i].cap == cap
    ensures forall j :: 0 <= j < i ==> reg[j].cap != cap
  {
    if reg == [] || reg[0].cap == cap then 0 else 1 + FirstMatch(reg[1..], cap)
  }

  function Unregister(reg: Registry, cap: Capability): Registry {
    var i := FirstMatch(reg, cap);
    if i == |reg| then reg else reg[..i] + reg[i + 1..]
  }

  function RegisterAll(reg: Registry, caps: seq<Capability>, c: Conn): Registry {
    if caps == [] then reg
    else Register(RegisterAll(reg, caps[..|caps| - 1], c), caps[|caps| - 1], c)
  }

  /** Registering a pair again, from anywhere, changes nothing. */
  lemma RegisterIdempotent(reg: Registry, cap: Capability, c: Conn, d: Conn)
    ensures Register(Register(reg, cap, c), cap, d) == Register(reg, cap, c)
  {
    var r := Register(reg, cap, c);
    if !Registered(reg, cap) { assert r[|reg|].cap == cap; }
  }

  lemma RegisterEffect(reg: Registry, cap: Capability, c: Conn, other: Capability)
    ensures Registered(Register(reg, cap, c), other) <==> other == cap || Registered(reg, other)
    ensures NoTwins(reg) ==> NoTwins(Register(reg, cap, c))
  {
    var r := Register(reg, cap, c);
    if !Registered(reg, cap) {
      assert r[|reg|].cap == cap;
      if Registered(reg, other) {
        var i :| 0 <= i < |reg| && reg[i].cap == other;
        assert r[i].cap == other;
      }
    }
  }

  lemma UnregisterEffect(reg: Registry, cap: Capability, other: Capability)
    ensures other != cap ==> (Registered(Unregister(reg, cap), other) <==> Registered(reg, other))
    ensures NoTwins(reg) ==> NoTwins(Unregister(reg, cap))
  {
    var i, r := FirstMatch(reg, cap), Unregister(reg, cap);
    if i < |reg| {
      assert forall k :: 0 <= k < |r| ==> r[k] == if k < i then reg[k] else reg[k + 1];
      if other != cap && Registered(reg, other) {
        var k :| 0 <= k < |reg| && reg[k].cap == other;
        assert r[if k < i then k else k - 1].cap == other;
      }
    }
  }

  /** Erasing the first match leaves no match exactly when there are no twins of
      it: with NoTwins, always. */
  lemma UnregisterLeavesNone(reg: Registry, cap: Capability)
    ensures !Registered(Unregister(reg, cap), cap)
      <==> forall i, j :: 0 <= i < j < |reg| ==> !(reg[i].cap == cap == reg[j].cap)
  {
    var i, r := FirstMatch(reg, cap), Unregister(reg, cap);
    if i < |reg| {
      assert forall k :: 0 <= k < |r| ==> r[k] == if k < i then reg[k] else reg[k + 1];
      if j, k :| 0 <= j < k < |reg| && reg[j].cap == cap == reg[k].cap {
        assert r[k - 1].cap == cap;
      }
      if k :| 0 <= k < |r| && r[k].cap == cap {
        assert reg[i].cap == cap == reg[k + 1].cap;
      }
    }
  }

  lemma {:induction false} RegisterAllEffect(reg: Registry, caps: seq<Capability>, c: Conn, other: Capability)
    ensures Registered(RegisterAll(reg, caps, c), other) <==> other in caps || Registered(reg, other)
    ensures NoTwins(reg) ==> NoTwins(RegisterAll(reg, caps, c))
  {
    if caps != [] {
      var front, last := caps[..|caps| - 1], caps[|caps| - 1];
      RegisterAllEffect(reg, front, c, other);
      RegisterEffect(RegisterAll(reg, front, c), last, c, other);
      assert caps == front + [last];
    }
  }

  /** What handlers 1, 2 and 3 do to the registry. */
  datatype RegistryStep =
    | Adding(cap: Capability, c: Conn)
    | Removing(cap: Capability)
    | Listing(caps: seq<Capability>, c: Conn)

  function RegistryAfter(reg: Registry, step: RegistryStep): Registry {
    match step
    case Adding(cap, c) => Register(reg, cap, c)
    case Removing(cap) => Unregister(reg, cap)
    case Listing(caps, c) => RegisterAll(reg, caps, c)
  }

  function RegistryRun(steps: seq<RegistryStep>): Registry {
    if steps == [] then [] else RegistryAfter(RegistryRun(steps[..|steps| - 1]), steps[|steps| - 1])
  }

  lemma StepKeepsNoTwins(reg: Registry, step: RegistryStep)
    requires NoTwins(reg)
    ensures NoTwins(RegistryAfter(reg, step))
  {
    var any := Capability([], Endpoint([], 0));
    match step
    case Adding(cap, c) => RegisterEffect(reg, cap, c, any);
    case Removing(cap) => UnregisterEffect(reg, cap, any);
    case Listing(caps, c) => RegisterAllEffect(reg, caps, c, any);
  }

  /** In every reachable state no pair is registered twice, so handler 2 leaves no
      entry of the pair it removes. */
  lemma {:induction false} ReachableRegistry(steps: seq<RegistryStep>, cap: Capability)
    ensures NoTwins(RegistryRun(steps))
    ensures !Registered(Unregister(RegistryRun(steps), cap), cap)
  {
    if steps != [] {
      ReachableRegistry(steps[..|steps| - 1], cap);
      StepKeepsNoTwins(RegistryRun(steps[..|steps| - 1]), steps[|steps| - 1]);
    }
    UnregisterLeavesNone(RegistryRun(steps), cap);
  }

  /** The connections handler 7 relays to, in order: the live entries of a name. */
  function Providers(reg: Registry, name: bytes, live: set<Conn>): seq<Conn> {
    if reg == [] then []
    else
      var e := reg[|reg| - 1];
      Providers(reg[..|reg| - 1], name, live)
        + if e.cap.name == name && e.conn in live then [e.conn] else []
  }

  predicate Provides(e: Entry, name: bytes, live: set<Conn>) {
    e.cap.name == name && e.conn in live
  }

  /** The providers are the live connections with an entry of the name, one for each
      entry, in the order of the registry. */
  lemma {:induction false} ProvidersInOrder(reg: Registry, name: bytes, live: set<Conn>) returns (at: seq<nat>)
    ensures InOrderAt(reg, name, live, Providers(reg, name, live), at)
  {
    at := [];
    if reg != [] {
      var n := |reg| - 1;
      at := ProvidersInOrder(reg[..n], name, live);
      var had := Providers(reg[..n], name, live);
      var last := Provides(reg[n], name, live);
      assert Providers(reg, name, live) == had + if last then [reg[n].conn] else [];
      hide Providers, Provides, InOrderAt;
      assert had + [] == had;
      OneMoreEntry(reg, name, live, had, at);
      if last { at := at + [n]; }
    }
  }

  /** The entries that provide stand at `at`, in order, and belong to cs. */
  predicate InOrderAt(reg: Registry, name: bytes, live: set<Conn>, cs: seq<Conn>, at: seq<nat>) {
    && |at| == |cs|
    && (forall k :: 0 <= k < |at| ==> at[k] < |reg| && Provides(reg[at[k]], name, live) && cs[k] == reg[at[k]].conn)
    && (forall j, k :: 0 <= j < k < |at| ==> at[j] < at[k])
    && (forall i :: 0 <= i < |reg| && Provides(reg[i], name, live) ==> i in at)
  }

  lemma OneMoreEntry(reg: Registry, name: bytes, live: set<Conn>, cs: seq<Conn>, at: seq<nat>)
    requires reg != [] && InOrderAt(reg[..|reg| - 1], name, live, cs, at)
    ensures var n := |reg| - 1;
      if Provides(reg[n], name, live) then InOrderAt(reg, name, live, cs + [reg[n].conn], at + [n])
      else InOrderAt(reg, name, live, cs, at)
  {
    hide Provides;
    var n := |reg| - 1;
    forall i | 0 <= i < n && Provides(reg[i], name, live) ensures i in at {
      assert reg[..n][i] == reg[i];
    }
    assert n in at + [n];
  }

  /** The body is read from the packet once: later providers get what is left. */
  function BodyFor(k: nat, body: bytes): bytes { if k == 0 then body else [] }

  /** Indices a run of handler 7 may draw: unused, and all different. */
  ghost predicate FreshIndices(relay: map<u32, Conn>, indices: seq<u32>) {
    && (forall k :: 0 <= k < |indices| ==> indices[k] !in relay)
    && (forall j, k :: 0 <= j < k < |indices| ==> indices[j] != indices[k])
  }

  function Allocate(relay: map<u32, Conn>, indices: seq<u32>, c: Conn): map<u32, Conn> {
    if indices == [] then relay
    else Allocate(relay, indices[..|indices| - 1], c)[indices[|indices| - 1] := c]
  }

  lemma {:induction false} AllocateEffect(relay: map<u32, Conn>, indices: seq<u32>, c: Conn)
    requires FreshIndices(relay, indices)
    ensures var r := Allocate(relay, indices, c);
      && |r| == |relay| + |indices|
      && (forall x :: x in r <==> x in relay || x in indices)
      && (forall x :: x in relay ==> x in r && r[x] == relay[x])
      && (forall x :: x in indices ==> r[x] == c)
  {
    if indices != [] {
      var front, last := indices[..|indices| - 1], indices[|indices| - 1];
      AllocateEffect(relay, front, c);
      assert indices == front + [last];
    }
  }

  lemma AllocateOne(relay: map<u32, Conn>, indices: seq<u32>, c: Conn, x: u32)
    requires FreshIndices(relay, indices) && x !in Allocate(relay, indices, c)
    ensures FreshIndices(relay, indices + [x])
    ensures Allocate(relay, indices + [x], c) == Allocate(relay, indices, c)[x := c]
  {}

  lemma ProvidersOne(reg: Registry, n: nat, name: bytes, live: set<Conn>)
    requires n < |reg|
    ensures var e := reg[n];
      Providers(reg[..n + 1], name, live) == Providers(reg[..n], name, live)
        + if e.cap.name == name && e.conn in live then [e.conn] else []
  {
    assert reg[..n + 1][..n] == reg[..n];
  }

  /** What handler 7 sends: one message to each provider. */
  function RelayedTo(providers: seq<Conn>, indices: seq<u32>, body: bytes): (r: seq<(Conn, ClientMessage)>)
    requires |indices| == |providers|
    ensures |r| == |providers|
  {
    seq(|providers|, k requires 0 <= k < |providers| => (providers[k], Relayed(indices[k], BodyFor(k, body))))
  }

  /** Drawing ends: fewer than 2^32 indices leave one unused. */
  lemma UnusedIndexExists(relay: map<u32, Conn>)
    requires |relay| < 0x1_0000_0000
    ensures exists x: u32 :: x !in relay
  {
    if forall x: u32 :: x in relay {
      var n := 0x1_0000_0000;
      BelowSize(n);
      assert Below(n) <= relay.Keys by {
        forall x | x in Below(n) ensures x in relay { InBelow(n, x); }
      }
      SubsetSize(Below(n), relay.Keys);
    }
  }

  ghost function Below(n: nat): set<nat> {
    if n == 0 then {} else Below(n - 1) + {n - 1}
  }

  lemma {:induction false} InBelow(n: nat, x: nat)
    ensures x in Below(n) <==> x < n
  {
    if n > 0 { InBelow(n - 1, x); }
  }

  lemma {:induction false} BelowSize(n: nat)
    ensures |Below(n)| == n
  {
    if n > 0 {
      BelowSize(n - 1);
      InBelow(n - 1, n - 1);
    }
  }

  lemma {:induction false} SubsetSize<T>(a: set<T>, b: set<T>)
    requires a <= b
    ensures |a| <= |b|
  {
    if a != {} {
      var x :| x in a;
      SubsetSize(a - {x}, b - {x});
    }
  }
}
