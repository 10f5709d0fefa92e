/** Hub and clients agree on capabilities: replaying what a client has in flight
    over the hub's registry gives names the client holds, and all of them once its
    list is queued. */
module CapabilityAgreement {
  import opened Machine
  import opened Capabilities
  import opened Messages
  import opened Hub
  import opened ClientStates
  import opened Interserver

  /** The endpoint a client offers a name at. */
  type Home = (Conn, bytes) -> Endpoint

  ghost predicate Disjoint(home: Home) {
    forall c: Conn, d: Conn, n: bytes :: home(c, n) == home(d, n) ==> c == d
  }

  function Own(home: Home, c: Conn, n: bytes): Capability { Capability(n, home(c, n)) }

  /** The steps of such a session. */
  ghost predicate Homely(home: Home, step: Step) {
    match step
    case AddCapability(c, cap) => cap == Own(home, c, cap.name)
    case RemoveCapability(c, cap) => cap == Own(home, c, cap.name)
    case SendList(_, caps) => |caps| < 0x1_0000
    case _ => true
  }

  /** Whether a pair is registered after a message, given whether it was before. */
  function HeldAfter(held: bool, m: HubMessage, cap: Capability): bool {
    match m
    case AddCap(x) => held || x == cap
    case RemoveCap(x) => held && x != cap
    case ListCaps(xs) => held || cap in Counted(xs)
    case _ => held
  }

  lemma HubHolds(s: System, i: nat, live: set<Conn>, indices: seq<u32>, cap: Capability)
    requires Enabled(s, HubTakes(i, live, indices)) && NoTwins(s.registry)
    ensures Registered(HubApplied(s, i, live, indices).registry, cap)
      == HeldAfter(Registered(s.registry, cap), s.net[i].up, cap)
    ensures NoTwins(HubApplied(s, i, live, indices).registry)
  {
    hide Registered, Register, Unregister, RegisterAll;
    var e := s.net[i];
    match e.up
    case AddCap(x) => RegisterEffect(s.registry, x, e.conn, cap);
    case RemoveCap(x) => UnregisterEffect(s.registry, x, cap); UnregisterLeavesNone(s.registry, x);
    case ListCaps(xs) => RegisterAllEffect(s.registry, Counted(xs), e.conn, cap);
    case _ =>
  }

  /** The messages of client c in flight, replayed in order. */
  function Replayed(held: bool, net: seq<Envelope>, c: Conn, cap: Capability): bool {
    if net == [] then held
    else
      var e, before := net[|net| - 1], Replayed(held, net[..|net| - 1], c, cap);
      if e.ToHub? && e.conn == c then HeldAfter(before, e.up, cap) else before
  }

  lemma {:induction false} ReplayAppend(held: bool, net: seq<Envelope>, more: seq<Envelope>, c: Conn, cap: Capability)
    ensures Replayed(held, net + more, c, cap) == Replayed(Replayed(held, net, c, cap), more, c, cap)
  {
    if more == [] {
      assert net + more == net;
    } else {
      ReplayAppend(held, net, more[..|more| - 1], c, cap);
      assert (net + more)[..|net + more| - 1] == net + more[..|more| - 1];
    }
  }

  lemma {:induction false} ReplayOthers(held: bool, net: seq<Envelope>, c: Conn, cap: Capability)
    requires forall j :: 0 <= j < |net| ==> !(net[j].ToHub? && net[j].conn == c)
    ensures Replayed(held, net, c, cap) == held
  {
    if net != [] { ReplayOthers(held, net[..|net| - 1], c, cap); }
  }

  lemma ReplayOne(held: bool, e: Envelope, c: Conn, cap: Capability)
    ensures Replayed(held, [e], c, cap) == if e.ToHub? && e.conn == c then HeldAfter(held, e.up, cap) else held
  {}

  /** Taking the next message of a channel: for its sender the replay starts one
      message later, for everyone else nothing changes. */
  lemma ReplayTaken(held: bool, net: seq<Envelope>, i: nat, c: Conn, cap: Capability)
    requires IsNext(net, i)
    ensures var next := if net[i].ToHub? && net[i].conn == c then HeldAfter(held, net[i].up, cap) else held;
      Replayed(held, net, c, cap) == Replayed(next, Without(net, i), c, cap)
  {
    hide HeldAfter, Replayed;
    var e, front, back := net[i], net[..i], net[i + 1..];
    assert net == front + ([e] + back);
    ReplayAppend(held, front, [e] + back, c, cap);
    var mid := Replayed(held, front, c, cap);
    ReplayAppend(mid, [e], back, c, cap);
    ReplayOne(mid, e, c, cap);
    var next := if e.ToHub? && e.conn == c then HeldAfter(held, e.up, cap) else held;
    ReplayAppend(next, front, back, c, cap);
    if e.ToHub? && e.conn == c {
      ReplayOthers(held, front, c, cap);
      ReplayOthers(next, front, c, cap);
    }
  }

  /** A message names capabilities of its sender only. */
  ghost predicate OwnMessage(home: Home, e: Envelope) {
    e.ToHub? ==>
      match e.up
      case AddCap(x) => x == Own(home, e.conn, x.name)
      case RemoveCap(x) => x == Own(home, e.conn, x.name)
      case ListCaps(xs) => forall j :: 0 <= j < |xs| ==> xs[j] == Own(home, e.conn, xs[j].name)
      case _ => true
  }

  /** The keys of a client's capability map are its own pairs. */
  ghost predicate OwnKeys(home: Home, c: Conn, client: Client) {
    forall n :: n in client.state.capabilities ==> client.state.capabilities[n].0 == Own(home, c, n)
  }

  /** What the replay gives for one name of one client. */
  ghost predicate Agrees(client: Client, n: bytes, replay: bool) {
    && (!client.isOpen ==> !replay && !client.listed)
    && (replay ==> n in client.state.capabilities)
    && (client.listed ==> (replay <==> n in client.state.capabilities))
  }

  ghost predicate ReplayOf(home: Home, s: System, c: Conn, n: bytes) {
    Replayed(Registered(s.registry, Own(home, c, n)), s.net, c, Own(home, c, n))
  }

  ghost predicate AgreementInv(home: Home, s: System) {
    && NoTwins(s.registry)
    && (forall j :: 0 <= j < |s.net| ==> OwnMessage(home, s.net[j]))
    && (forall c :: c in s.clients ==> OwnKeys(home, c, s.clients[c]))
    && (forall c, n :: c in s.clients ==> Agrees(s.clients[c], n, ReplayOf(home, s, c, n)))
  }

  /** A message of another client says nothing about one's own pairs. */
  lemma NotMine(home: Home, e: Envelope, c: Conn, n: bytes, held: bool)
    requires Disjoint(home) && OwnMessage(home, e) && e.ToHub? && e.conn != c
    ensures HeldAfter(held, e.up, Own(home, c, n)) == held
  {}

  /** The hub takes a message: no replay changes. */
  lemma HubKeepsReplays(home: Home, s: System, i: nat, live: set<Conn>, indices: seq<u32>, c: Conn, n: bytes)
    requires Disjoint(home) && AgreementInv(home, s) && Enabled(s, HubTakes(i, live, indices))
    ensures ReplayOf(home, HubApplied(s, i, live, indices), c, n) == ReplayOf(home, s, c, n)
  {
    hide HeldAfter, Registered, Replayed;
    var e, s', cap := s.net[i], HubApplied(s, i, live, indices), Own(home, c, n);
    var held, held' := Registered(s.registry, cap), Registered(s'.registry, cap);
    HubHolds(s, i, live, indices, cap);
    ReplayTaken(held, s.net, i, c, cap);
    if e.conn != c { NotMine(home, e, c, n, held); }
    var more := s'.net[|s.net| - 1..];
    NetAfterHub(s, i, live, indices);
    ReplayAppend(held', Without(s.net, i), more, c, cap);
    ReplayOthers(Replayed(held', Without(s.net, i), c, cap), more, c, cap);
  }

  lemma NetAfterHub(s: System, i: nat, live: set<Conn>, indices: seq<u32>)
    requires Enabled(s, HubTakes(i, live, indices))
    ensures var s' := HubApplied(s, i, live, indices);
      && |s'.net| >= |s.net| - 1 && s'.net == Without(s.net, i) + s'.net[|s.net| - 1..]
      && (forall j :: |s.net| - 1 <= j < |s'.net| ==> s'.net[j].ToClient?)
      && s'.clients == s.clients
  {}

  lemma HubKeepsAgreement(home: Home, s: System, i: nat, live: set<Conn>, indices: seq<u32>)
    requires Disjoint(home) && AgreementInv(home, s) && Enabled(s, HubTakes(i, live, indices))
    ensures AgreementInv(home, HubApplied(s, i, live, indices))
  {
    hide OwnMessage, OwnKeys, Agrees, ReplayOf;
    var s' := HubApplied(s, i, live, indices);
    HubHolds(s, i, live, indices, Own(home, 0, []));
    NetAfterHub(s, i, live, indices);
    ToClientsOwned(home, s, i, s'.net);
    forall c, n | c in s'.clients ensures Agrees(s'.clients[c], n, ReplayOf(home, s', c, n)) {
      HubKeepsReplays(home, s, i, live, indices, c, n);
    }
  }

  lemma ToClientsOwned(home: Home, s: System, i: nat, net: seq<Envelope>)
    requires AgreementInv(home, s) && i < |s.net| && |net| >= |s.net| - 1
    requires net == Without(s.net, i) + net[|s.net| - 1..]
    requires forall j :: |s.net| - 1 <= j < |net| ==> net[j].ToClient?
    ensures forall j :: 0 <= j < |net| ==> OwnMessage(home, net[j])
  {}

  /** The replay of client c after it sends at most one message. */
  function ReplayAfter(replay: bool, ms: seq<HubMessage>, cap: Capability): bool
    requires |ms| <= 1
  {
    if ms == [] then replay else HeldAfter(replay, ms[0], cap)
  }

  lemma SendingReplays(held: bool, net: seq<Envelope>, c: Conn, ms: seq<HubMessage>, tag: Tag, d: Conn, cap: Capability)
    requires |ms| <= 1
    ensures var replay := Replayed(held, net, d, cap);
      Replayed(held, net + Sending(c, ms, tag), d, cap) == if d == c then ReplayAfter(replay, ms, cap) else replay
  {
    hide HeldAfter, Replayed;
    var more := Sending(c, ms, tag);
    ReplayAppend(held, net, more, d, cap);
    var replay := Replayed(held, net, d, cap);
    if ms == [] {
      ReplayOthers(replay, more, d, cap);
    } else {
      assert more == [ToHub(c, ms[0], tag)];
      ReplayOne(replay, more[0], d, cap);
    }
  }

  /** A client changes its own state and sends at most one message about it. */
  lemma OwnKeepsAgreement(home: Home, s: System, c: Conn, client: Client, ms: seq<HubMessage>, tag: Tag, s': System)
    requires AgreementInv(home, s) && c in s.clients && |ms| <= 1
    requires s'.registry == s.registry && s'.clients == s.clients[c := client] && s'.net == s.net + Sending(c, ms, tag)
    requires OwnKeys(home, c, client)
    requires forall m :: 0 <= m < |ms| ==> OwnMessage(home, ToHub(c, ms[m], tag))
    requires forall n :: Agrees(client, n, ReplayAfter(ReplayOf(home, s, c, n), ms, Own(home, c, n)))
    ensures AgreementInv(home, s')
  {
    hide OwnMessage, OwnKeys, Agrees, Replayed, ReplayAfter, Registered;
    forall d, n | d in s'.clients ensures Agrees(s'.clients[d], n, ReplayOf(home, s', d, n)) {
      SendingReplays(Registered(s.registry, Own(home, d, n)), s.net, c, ms, tag, d, Own(home, d, n));
      assert Agrees(s.clients[d], n, ReplayOf(home, s, d, n));
    }
  }

  lemma AddKeepsAgreement(home: Home, s: System, c: Conn, cap: Capability)
    requires AgreementInv(home, s) && c in s.clients && cap == Own(home, c, cap.name)
    ensures AgreementInv(home, Apply(s, AddCapability(c, cap)))
  {
    hide Replayed, ReplayOf;
    var client := s.clients[c];
    var (state, ms) := Add(client.state, cap, client.isOpen);
    assert OwnKeys(home, c, client);
    forall n ensures Agrees(client.(state := state), n, ReplayAfter(ReplayOf(home, s, c, n), ms, Own(home, c, n))) {
      assert Agrees(client, n, ReplayOf(home, s, c, n));
    }
    OwnKeepsAgreement(home, s, c, client.(state := state), ms, Untagged, Apply(s, AddCapability(c, cap)));
  }

  lemma RemoveKeepsAgreement(home: Home, s: System, c: Conn, cap: Capability)
    requires AgreementInv(home, s) && c in s.clients && cap == Own(home, c, cap.name)
    ensures AgreementInv(home, Apply(s, RemoveCapability(c, cap)))
  {
    hide Replayed, ReplayOf;
    var client := s.clients[c];
    var (state, ms) := Remove(client.state, cap, client.isOpen);
    assert OwnKeys(home, c, client);
    forall n ensures Agrees(client.(state := state), n, ReplayAfter(ReplayOf(home, s, c, n), ms, Own(home, c, n))) {
      assert Agrees(client, n, ReplayOf(home, s, c, n));
    }
    OwnKeepsAgreement(home, s, c, client.(state := state), ms, Untagged, Apply(s, RemoveCapability(c, cap)));
  }

  /** Once the list is queued, the replay gives exactly the names held. */
  lemma ListKeepsAgreement(home: Home, s: System, c: Conn, caps: seq<Capability>)
    requires AgreementInv(home, s) && Enabled(s, SendList(c, caps)) && |caps| < 0x1_0000
    ensures AgreementInv(home, Apply(s, SendList(c, caps)))
  {
    hide Replayed, ReplayOf;
    var client := s.clients[c];
    var ms := if caps == [] then [] else [ListCaps(caps)];
    assert OwnKeys(home, c, client);
    assert Counted(caps) == caps;
    forall n
      ensures Agrees(client.(listed := true), n, ReplayAfter(ReplayOf(home, s, c, n), ms, Own(home, c, n)))
    {
      assert Agrees(client, n, ReplayOf(home, s, c, n));
      Listed(home, c, client, caps, n);
    }
    forall j | 0 <= j < |caps| ensures caps[j] == Own(home, c, caps[j].name) {
      var m :| m in client.state.capabilities && client.state.capabilities[m].0 == caps[j];
    }
    OwnKeepsAgreement(home, s, c, client.(listed := true), ms, Untagged, Apply(s, SendList(c, caps)));
  }

  lemma Listed(home: Home, c: Conn, client: Client, caps: seq<Capability>, n: bytes)
    requires OwnKeys(home, c, client) && IsListing(client.state, caps)
    ensures Own(home, c, n) in caps <==> n in client.state.capabilities
  {}

  /** Steps of a client that leave its capabilities alone. */
  lemma OtherKeepsAgreement(home: Home, s: System, step: Step)
    requires AgreementInv(home, s) && Enabled(s, step) && (step.Connect? || step.RegisterHandler? || step.Ask?)
    ensures AgreementInv(home, Apply(s, step))
  {
    hide Replayed, ReplayOf;
    var s', c := Apply(s, step), step.c;
    var client := s'.clients[c];
    assert OwnKeys(home, c, s.clients[c]);
    var more := s'.net[|s.net|..];
    var ms := if more == [] then [] else [more[0].up];
    var tag := if more == [] then Untagged else more[0].tag;
    assert s'.net == s.net + Sending(c, ms, tag);
    forall n ensures Agrees(client, n, ReplayAfter(ReplayOf(home, s, c, n), ms, Own(home, c, n))) {
      assert Agrees(s.clients[c], n, ReplayOf(home, s, c, n));
    }
    OwnKeepsAgreement(home, s, c, client, ms, tag, s');
  }

  /** A client takes a message from the hub: at most a reply is sent. */
  lemma TakingKeepsAgreement(home: Home, s: System, i: nat, stray: Option<Stray>)
    requires AgreementInv(home, s) && Enabled(s, ClientTakes(i, stray))
    ensures AgreementInv(home, Apply(s, ClientTakes(i, stray)))
  {
    hide ReplayOf, OnlyReplies, OwnMessage, Agrees;
    var s' := Apply(s, ClientTakes(i, stray));
    TakenByClient(s, i, stray);
    RepliesOwned(home, s, i, s');
    forall d, n | d in s'.clients ensures Agrees(s'.clients[d], n, ReplayOf(home, s', d, n)) {
      RepliesKeepReplays(home, s, i, s', d, n);
      SameCapabilities(s, i, s', d, n, ReplayOf(home, s, d, n));
    }
  }

  lemma RepliesOwned(home: Home, s: System, i: nat, s': System)
    requires AgreementInv(home, s) && i < |s.net| && OnlyReplies(s, i, s')
    ensures NoTwins(s'.registry) && s'.clients.Keys == s.clients.Keys
    ensures forall j :: 0 <= j < |s'.net| ==> OwnMessage(home, s'.net[j])
    ensures forall d :: d in s'.clients ==> OwnKeys(home, d, s'.clients[d])
  {}

  lemma SameCapabilities(s: System, i: nat, s': System, d: Conn, n: bytes, replay: bool)
    requires i < |s.net| && OnlyReplies(s, i, s') && d in s.clients && Agrees(s.clients[d], n, replay)
    ensures Agrees(s'.clients[d], n, replay)
  {}

  lemma RepliesKeepReplays(home: Home, s: System, i: nat, s': System, d: Conn, n: bytes)
    requires IsNext(s.net, i) && s.net[i].ToClient? && OnlyReplies(s, i, s')
    ensures ReplayOf(home, s', d, n) == ReplayOf(home, s, d, n)
  {
    hide Replayed, Registered, HeldAfter;
    var taken, ms, tag := Without(s.net, i), Ups(s'.net[|s.net| - 1..]), s.net[i].tag;
    assert s'.net == taken + Sending(s.net[i].conn, ms, tag);
    var cap := Own(home, d, n);
    var held := Registered(s.registry, cap);
    ReplayTaken(held, s.net, i, d, cap);
    SendingReplays(held, taken, s.net[i].conn, ms, tag, d, cap);
    ReplyHolds(Replayed(held, taken, d, cap), ms, cap);
  }

  function Ups(net: seq<Envelope>): (ms: seq<HubMessage>)
    requires forall j :: 0 <= j < |net| ==> net[j].ToHub?
    ensures |ms| == |net| && forall j :: 0 <= j < |net| ==> ms[j] == net[j].up
  {
    seq(|net|, j requires 0 <= j < |net| => net[j].up)
  }

  lemma ReplyHolds(replay: bool, ms: seq<HubMessage>, cap: Capability)
    requires |ms| <= 1 && forall m :: 0 <= m < |ms| ==> ms[m].Reply?
    ensures ReplayAfter(replay, ms, cap) == replay
  {}

  /** What a client's taking of message i may change. */
  ghost predicate OnlyReplies(s: System, i: nat, s': System)
    requires i < |s.net|
  {
    && s'.registry == s.registry && |s.net| - 1 <= |s'.net| <= |s.net|
    && s'.net == Without(s.net, i) + s'.net[|s.net| - 1..]
    && (forall j :: |s.net| - 1 <= j < |s'.net| ==>
      s'.net[j].ToHub? && s'.net[j].up.Reply? && s'.net[j].conn == s.net[i].conn && s'.net[j].tag == s.net[i].tag)
    && s'.clients.Keys == s.clients.Keys
    && forall d :: d in s.clients ==>
      && s'.clients[d] == s.clients[d].(state := s'.clients[d].state)
      && s'.clients[d].state.capabilities == s.clients[d].state.capabilities
  }

  lemma TakenByClient(s: System, i: nat, stray: Option<Stray>)
    requires Enabled(s, ClientTakes(i, stray))
    ensures OnlyReplies(s, i, Apply(s, ClientTakes(i, stray)))
  {
    hide OnlyReplies;
    match s.net[i].down
    case Relayed(index, body) => RelayedOnlyReplies(s, i, index, body, stray);
    case Answer(body) => AnswerOnlyReplies(s, i, body);
  }

  lemma RelayedOnlyReplies(s: System, i: nat, index: u32, body: bytes, stray: Option<Stray>)
    requires i < |s.net| && s.net[i].ToClient? && s.net[i].conn in s.clients
    ensures OnlyReplies(s, i, RelayedApplied(s, i, index, body, stray))
  {}

  lemma AnswerOnlyReplies(s: System, i: nat, body: bytes)
    requires i < |s.net| && s.net[i].ToClient? && s.net[i].conn in s.clients
    ensures OnlyReplies(s, i, AnswerApplied(s, i, body))
  {}

  lemma StepKeepsAgreement(home: Home, s: System, step: Step)
    requires Disjoint(home) && AgreementInv(home, s) && Enabled(s, step) && Homely(home, step)
    ensures AgreementInv(home, Apply(s, step))
  {
    hide AgreementInv;
    match step
    case AddCapability(c, cap) => AddKeepsAgreement(home, s, c, cap);
    case RemoveCapability(c, cap) => RemoveKeepsAgreement(home, s, c, cap);
    case SendList(c, caps) => ListKeepsAgreement(home, s, c, caps);
    case HubTakes(i, live, indices) => HubKeepsAgreement(home, s, i, live, indices);
    case ClientTakes(i, stray) => TakingKeepsAgreement(home, s, i, stray);
    case _ => OtherKeepsAgreement(home, s, step);
  }

  /** Throughout every session the replay of a client's messages gives names it
      holds, and all of them once its list is queued. */
  lemma {:induction false} Agreement(home: Home, states: seq<System>, steps: seq<Step>, k: nat)
    requires Disjoint(home) && IsRun(states, steps) && k < |states|
    requires forall j :: 0 <= j < |steps| ==> Homely(home, steps[j])
    ensures AgreementInv(home, states[k])
  {
    if k == 0 {
      NothingReplayed(home, states[0]);
    } else {
      hide AgreementInv, Init;
      Agreement(home, states, steps, k - 1);
      StepKeepsAgreement(home, states[k - 1], steps[k - 1]);
    }
  }

  lemma NothingReplayed(home: Home, s: System)
    requires Init(s)
    ensures AgreementInv(home, s)
  {}

  /** The count of a name is positive as long as it never wraps; one more addition
      than 32 bits count leaves a held name at zero. */
  ghost predicate Positive(s: ClientState) {
    forall n :: n in s.capabilities ==> s.capabilities[n].1 > 0
  }

  lemma CountsStayPositive(s: ClientState, cap: Capability, isOpen: bool)
    requires Positive(s)
    ensures Positive(Add(s, cap, isOpen).0)
      <==> !(cap.name in s.capabilities && s.capabilities[cap.name].1 == 0xFFFF_FFFF)
    ensures Positive(Remove(s, cap, isOpen).0)
  {
    if cap.name in s.capabilities {
      var after := Add(s, cap, isOpen).0;
      assert cap.name in after.capabilities;
    }
  }

  /** The step counts a name up whose 32-bit count is at its maximum. */
  ghost predicate Overflows(s: System, step: Step) {
    step.AddCapability? && step.c in s.clients
    && var held := s.clients[step.c].state.capabilities;
      step.cap.name in held && held[step.cap.name].1 == 0xFFFF_FFFF
  }

  ghost predicate AllPositive(s: System) {
    forall c :: c in s.clients ==> Positive(s.clients[c].state)
  }

  ghost predicate NeverOverflows(states: seq<System>, steps: seq<Step>)
    requires |states| == |steps| + 1
  {
    forall j :: 0 <= j < |steps| ==> !Overflows(states[j], steps[j])
  }

  lemma StepKeepsCounts(s: System, step: Step)
    requires AllPositive(s) && Enabled(s, step)
    ensures AllPositive(Apply(s, step)) <==> !Overflows(s, step)
  {
    hide Positive;
    match step
    case AddCapability(c, cap) =>
      CountsStayPositive(s.clients[c].state, cap, s.clients[c].isOpen);
      CountsElsewhere(s, Apply(s, step), c);
    case RemoveCapability(c, cap) =>
      CountsStayPositive(s.clients[c].state, cap, s.clients[c].isOpen);
      CountsElsewhere(s, Apply(s, step), c);
    case ClientTakes(i, stray) =>
      TakenByClient(s, i, stray);
      forall d | d in s.clients ensures Positive(Apply(s, step).clients[d].state) {
        SameCounts(s.clients[d].state, Apply(s, step).clients[d].state);
      }
    case HubTakes(_, _, _) =>
    case _ =>
      CountsElsewhere(s, Apply(s, step), step.c);
      SameCounts(s.clients[step.c].state, Apply(s, step).clients[step.c].state);
  }

  lemma CountsElsewhere(s: System, s': System, c: Conn)
    requires AllPositive(s) && c in s.clients && c in s'.clients && s'.clients == s.clients[c := s'.clients[c]]
    ensures AllPositive(s') <==> Positive(s'.clients[c].state)
  {
    hide Positive;
  }

  lemma SameCounts(s: ClientState, s': ClientState)
    requires Positive(s) && s'.capabilities == s.capabilities
    ensures Positive(s')
  {}

  lemma {:induction false} CountsUpTo(states: seq<System>, steps: seq<Step>, k: nat)
    requires IsRun(states, steps) && k < |states|
    requires forall j :: 0 <= j < k ==> !Overflows(states[j], steps[j])
    ensures AllPositive(states[k])
  {
    if k > 0 {
      hide Init, AllPositive, Overflows;
      CountsUpTo(states, steps, k - 1);
      StepKeepsCounts(states[k - 1], steps[k - 1]);
    }
  }

  /** Throughout a run every held name has a positive count if and only if no count
      at its 32-bit maximum is raised in it. */
  lemma CountsOverRuns(states: seq<System>, steps: seq<Step>)
    requires IsRun(states, steps)
    ensures (forall k :: 0 <= k < |states| ==> AllPositive(states[k])) <==> NeverOverflows(states, steps)
  {
    hide Init, AllPositive, Overflows;
    if NeverOverflows(states, steps) {
      forall k | 0 <= k < |states| ensures AllPositive(states[k]) { CountsUpTo(states, steps, k); }
    }
    if forall k :: 0 <= k < |states| ==> AllPositive(states[k]) {
      forall j | 0 <= j < |steps| ensures !Overflows(states[j], steps[j]) {
        StepKeepsCounts(states[j], steps[j]);
        assert AllPositive(states[j + 1]);
      }
    }
  }

  ghost predicate Holds(client: Client, n: bytes) {
    n in client.state.capabilities && client.state.capabilities[n].1 > 0
  }

  /** The same of names with a positive count, in sessions that overflow none. */
  lemma AgreementOnHeld(home: Home, states: seq<System>, steps: seq<Step>, k: nat, c: Conn, n: bytes)
    requires Disjoint(home) && IsRun(states, steps) && k < |states|
    requires forall j :: 0 <= j < |steps| ==> Homely(home, steps[j])
    requires NeverOverflows(states, steps) && c in states[k].clients
    ensures ReplayOf(home, states[k], c, n) ==> Holds(states[k].clients[c], n)
    ensures states[k].clients[c].listed ==> (ReplayOf(home, states[k], c, n) <==> Holds(states[k].clients[c], n))
  {
    hide ReplayOf, Overflows;
    Agreement(home, states, steps, k);
    CountsUpTo(states, steps, k);
    assert Agrees(states[k].clients[c], n, ReplayOf(home, states[k], c, n));
    assert Positive(states[k].clients[c].state);
  }

  /** With nothing of a listed client in flight, hub and client agree. */
  lemma DrainedAgreement(home: Home, states: seq<System>, steps: seq<Step>, k: nat, c: Conn, n: bytes)
    requires Disjoint(home) && IsRun(states, steps) && k < |states|
    requires forall j :: 0 <= j < |steps| ==> Homely(home, steps[j])
    requires c in states[k].clients && states[k].clients[c].listed
    requires forall j :: 0 <= j < |states[k].net| ==> !(states[k].net[j].ToHub? && states[k].net[j].conn == c)
    ensures Registered(states[k].registry, Own(home, c, n)) <==> n in states[k].clients[c].state.capabilities
    ensures NeverOverflows(states, steps) ==>
      (Registered(states[k].registry, Own(home, c, n)) <==> Holds(states[k].clients[c], n))
  {
    var s := states[k];
    hide Overflows;
    if NeverOverflows(states, steps) { AgreementOnHeld(home, states, steps, k, c, n); }
    Agreement(home, states, steps, k);
    assert Agrees(s.clients[c], n, ReplayOf(home, s, c, n));
    ReplayOthers(Registered(s.registry, Own(home, c, n)), s.net, c, Own(home, c, n));
  }
}
