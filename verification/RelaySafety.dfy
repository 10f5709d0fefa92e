/** Index safety: in every run, with any number of providers, an index in transit
    is in one message only and is bound to the connection that asked for it. */
module RelaySafety {
  import opened Machine
  import opened Messages
  import opened Hub
  import opened Interserver

  /** The relay table and its history agree on what is outstanding. */
  ghost predicate Outstanding(relay: map<u32, Conn>, h: History) {
    && relay.Keys == h.grants.Keys
    && (forall x :: x in relay ==> relay[x] == h.grants[x].origin.conn && h.grants[x].number < h.handedOut)
    && (forall x, y :: x in relay && y in relay && x != y ==> h.grants[x].number != h.grants[y].number)
    && h.handedOut == |h.answered| + |relay|
  }

  /** What was handed out is answered once, and then no longer outstanding. */
  ghost predicate AnsweredOnce(h: History) {
    && (forall j :: 0 <= j < |h.answered| ==> h.answered[j] < h.handedOut)
    && (forall j, k :: 0 <= j < k < |h.answered| ==> h.answered[j] != h.answered[k])
    && (forall x :: x in h.grants ==> h.grants[x].number !in h.answered)
  }

  ghost predicate TableInv(relay: map<u32, Conn>, h: History) {
    Outstanding(relay, h) && AnsweredOnce(h)
  }

  /** A message in flight is backed by the tables: a request carries its sender, an
      index is outstanding and the message descends from the request it was handed
      out for, an answer is on the way to the client that asked. */
  ghost predicate Backed(relay: map<u32, Conn>, h: History, e: Envelope) {
    match e
    case ToHub(c, Request(_, _), tag) => tag.Asked? && tag.origin.conn == c
    case ToHub(_, Reply(x, _), tag) => x in relay && x in h.grants && tag == Granted(h.grants[x])
    case ToHub(_, _, tag) => tag == Untagged
    case ToClient(_, Relayed(x, _), tag) => x in relay && x in h.grants && tag == Granted(h.grants[x])
    case ToClient(c, Answer(_), tag) =>
      tag.Granted? && tag.grant.origin.conn == c && tag.grant.number in h.answered
  }

  ghost predicate AllBacked(relay: map<u32, Conn>, h: History, net: seq<Envelope>) {
    forall j :: 0 <= j < |net| ==> Backed(relay, h, net[j])
  }

  ghost predicate IndexInv(s: System) {
    && TableInv(s.relay, s.history)
    && AllBacked(s.relay, s.history, s.net)
    && Unique(ByIndex, s.net)
    && Unique(ByGrant, s.net)
  }

  lemma BackedAfter(relay: map<u32, Conn>, h: History, net: seq<Envelope>, i: nat, more: seq<Envelope>,
    relay': map<u32, Conn>, h': History)
    requires i < |net|
    requires forall j :: 0 <= j < |net| && j != i ==> Backed(relay', h', net[j])
    requires AllBacked(relay', h', more)
    ensures AllBacked(relay', h', Without(net, i) + more)
  {}

  /** Messages without tags, requests included, leave the invariant alone. */
  lemma SendingKeeps(s: System, more: seq<Envelope>, sent: map<Origin, Sent>, clients: map<Conn, Client>)
    requires IndexInv(s)
    requires forall m :: 0 <= m < |more| ==>
      more[m].ToHub? && !more[m].up.Reply? && Backed(s.relay, s.history, more[m])
    ensures IndexInv(s.(clients := clients, net := s.net + more, history := s.history.(sent := sent)))
  {}

  /** A message is taken and at most one is sent, under the same grant. */
  lemma PassingOnKeeps(s: System, i: nat, more: seq<Envelope>, s': System)
    requires IndexInv(s) && i < |s.net|
    requires s'.relay == s.relay && s'.net == Without(s.net, i) + more
    requires s'.history.grants == s.history.grants && s'.history.answered == s.history.answered
    requires s'.history.handedOut == s.history.handedOut
    requires |more| <= 1 && forall m :: 0 <= m < |more| ==>
      && Backed(s.relay, s.history, more[m])
      && (KeyOf(ByIndex, more[m]).None? || KeyOf(ByIndex, more[m]) == KeyOf(ByIndex, s.net[i]))
      && (KeyOf(ByGrant, more[m]).None? || KeyOf(ByGrant, more[m]) == KeyOf(ByGrant, s.net[i]))
    ensures IndexInv(s')
  {
    UniquePassedOn(ByIndex, s.net, i, more);
    UniquePassedOn(ByGrant, s.net, i, more);
    hide Unique, KeyOf;
    assert forall j :: 0 <= j < |s.net| ==> Backed(s'.relay, s'.history, s.net[j]);
    hide Backed;
    BackedAfter(s.relay, s.history, s.net, i, more, s'.relay, s'.history);
  }

  ghost predicate Granting(grants: map<u32, Grant>, indices: seq<u32>, first: nat, origin: Origin, r: map<u32, Grant>) {
    && (forall x :: x in r <==> x in grants || x in indices)
    && (forall x :: x in grants ==> x in r && r[x] == grants[x])
    && (forall k :: 0 <= k < |indices| ==> indices[k] in r && r[indices[k]] == Grant(first + k, origin))
  }

  lemma GrantingOne(grants: map<u32, Grant>, front: seq<u32>, x: u32, first: nat, origin: Origin, r: map<u32, Grant>)
    requires Granting(grants, front, first, origin, r) && x !in front && x !in grants
    ensures Granting(grants, front + [x], first, origin, r[x := Grant(first + |front|, origin)])
  {}

  lemma {:induction false} GrantAllEffect(grants: map<u32, Grant>, indices: seq<u32>, first: nat, origin: Origin)
    requires forall j, k :: 0 <= j < k < |indices| ==> indices[j] != indices[k]
    requires forall k :: 0 <= k < |indices| ==> indices[k] !in grants
    ensures Granting(grants, indices, first, origin, GrantAll(grants, indices, first, origin))
  {
    if indices != [] {
      var n := |indices| - 1;
      var front, x := indices[..n], indices[n];
      assert indices == front + [x] && x !in front;
      GrantAllEffect(grants, front, first, origin);
      hide Granting, GrantAll;
      GrantAppend(grants, front, x, first, origin);
      GrantingOne(grants, front, x, first, origin, GrantAll(grants, front, first, origin));
    }
  }

  lemma TableAfterOne(relay: map<u32, Conn>, h: History, x: u32, origin: Origin)
    requires TableInv(relay, h) && x !in relay
    ensures TableInv(relay[x := origin.conn],
      h.(grants := h.grants[x := Grant(h.handedOut, origin)], handedOut := h.handedOut + 1))
  {
    OutstandingAfterOne(relay, h, x, origin);
    AnsweredAfterOne(relay, h, x, origin);
    hide Outstanding, AnsweredOnce;
  }

  lemma OutstandingAfterOne(relay: map<u32, Conn>, h: History, x: u32, origin: Origin)
    requires Outstanding(relay, h) && x !in relay
    ensures Outstanding(relay[x := origin.conn],
      h.(grants := h.grants[x := Grant(h.handedOut, origin)], handedOut := h.handedOut + 1))
  {}

  lemma AnsweredAfterOne(relay: map<u32, Conn>, h: History, x: u32, origin: Origin)
    requires Outstanding(relay, h) && AnsweredOnce(h) && x !in relay
    ensures AnsweredOnce(h.(grants := h.grants[x := Grant(h.handedOut, origin)], handedOut := h.handedOut + 1))
  {}

  function HistoryAfter(h: History, indices: seq<u32>, origin: Origin): History {
    h.(grants := GrantAll(h.grants, indices, h.handedOut, origin), handedOut := h.handedOut + |indices|)
  }

  lemma FreshPrefix(relay: map<u32, Conn>, front: seq<u32>, x: u32)
    requires FreshIndices(relay, front + [x])
    ensures FreshIndices(relay, front) && x !in front && x !in relay
  {
    var indices := front + [x];
    assert indices[|front|] == x;
    assert forall k :: 0 <= k < |front| ==> front[k] == indices[k];
  }

  lemma NotAllocated(relay: map<u32, Conn>, front: seq<u32>, x: u32, c: Conn)
    requires FreshIndices(relay, front + [x]) && FreshIndices(relay, front)
    ensures x !in Allocate(relay, front, c)
  {
    FreshPrefix(relay, front, x);
    AllocateEffect(relay, front, c);
  }

  lemma AllocateAppend(relay: map<u32, Conn>, front: seq<u32>, x: u32, c: Conn)
    ensures Allocate(relay, front + [x], c) == Allocate(relay, front, c)[x := c]
  {
    assert (front + [x])[..|front|] == front;
  }

  lemma GrantAppend(grants: map<u32, Grant>, front: seq<u32>, x: u32, first: nat, origin: Origin)
    ensures GrantAll(grants, front + [x], first, origin)
      == GrantAll(grants, front, first, origin)[x := Grant(first + |front|, origin)]
  {
    assert (front + [x])[..|front|] == front;
  }

  /** One index more. */
  lemma TableStep(relay: map<u32, Conn>, h: History, front: seq<u32>, x: u32, origin: Origin)
    requires FreshIndices(relay, front + [x]) && FreshIndices(relay, front)
    requires TableInv(Allocate(relay, front, origin.conn), HistoryAfter(h, front, origin))
    ensures TableInv(Allocate(relay, front + [x], origin.conn), HistoryAfter(h, front + [x], origin))
  {
    hide FreshIndices, Allocate, TableInv, GrantAll;
    NotAllocated(relay, front, x, origin.conn);
    AllocateAppend(relay, front, x, origin.conn);
    GrantAppend(h.grants, front, x, h.handedOut, origin);
    TableAfterOne(Allocate(relay, front, origin.conn), HistoryAfter(h, front, origin), x, origin);
  }

  lemma {:induction false} TableAfterAllocation(relay: map<u32, Conn>, h: History, indices: seq<u32>, origin: Origin)
    requires TableInv(relay, h) && FreshIndices(relay, indices)
    ensures TableInv(Allocate(relay, indices, origin.conn), HistoryAfter(h, indices, origin))
  {
    if indices != [] {
      hide TableInv, Allocate, HistoryAfter, FreshIndices;
      var front, x := indices[..|indices| - 1], indices[|indices| - 1];
      assert indices == front + [x];
      FreshPrefix(relay, front, x);
      TableAfterAllocation(relay, h, front, origin);
      TableStep(relay, h, front, x, origin);
    }
  }

  lemma EnvelopeKeys(providers: seq<Conn>, indices: seq<u32>, body: bytes, first: nat, origin: Origin)
    requires |indices| == |providers|
    requires forall j, k :: 0 <= j < k < |indices| ==> indices[j] != indices[k]
    ensures var more := RelayEnvelopes(providers, indices, body, first, origin);
      && Unique(ByIndex, more) && Unique(ByGrant, more)
      && forall m :: 0 <= m < |more| ==>
        && KeyOf(ByIndex, more[m]) == Some(IndexKey(indices[m]))
        && KeyOf(ByGrant, more[m]) == Some(GrantKey(first + m))
  {}

  lemma EnvelopesBacked(relay: map<u32, Conn>, h: History, providers: seq<Conn>, indices: seq<u32>, body: bytes,
    origin: Origin)
    requires TableInv(relay, h) && FreshIndices(relay, indices) && |indices| == |providers|
    ensures AllBacked(Allocate(relay, indices, origin.conn), HistoryAfter(h, indices, origin),
      RelayEnvelopes(providers, indices, body, h.handedOut, origin))
  {
    hide Allocate, GrantAll;
    AllocateEffect(relay, indices, origin.conn);
    GrantAllEffect(h.grants, indices, h.handedOut, origin);
    assert forall k :: 0 <= k < |indices| ==> indices[k] in indices;
  }

  /** Handler 7. */
  lemma RelayKeeps(s: System, i: nat, live: set<Conn>, indices: seq<u32>)
    requires IndexInv(s) && Enabled(s, HubTakes(i, live, indices)) && s.net[i].up.Request?
    ensures IndexInv(HubApplied(s, i, live, indices))
  {
    hide Allocate, GrantAll, Providers, RelayEnvelopes, HubApplied, KeyOf, Without;
    var e, h := s.net[i], s.history;
    assert Backed(s.relay, h, e);
    var origin := e.tag.origin;
    var providers := Providers(s.registry, e.up.cap.name, live);
    var more := RelayEnvelopes(providers, indices, e.up.body, h.handedOut, origin);
    RelayStep(s, i, live, indices);
    TableAfterAllocation(s.relay, h, indices, origin);
    EnvelopesBacked(s.relay, h, providers, indices, e.up.body, origin);
    EnvelopeKeys(providers, indices, e.up.body, h.handedOut, origin);
    AllStillBacked(s.relay, h, indices, origin, s.net);
    hide TableInv, Backed;
    BackedAfter(s.relay, h, s.net, i, more, Allocate(s.relay, indices, origin.conn), HistoryAfter(h, indices, origin));
    NewKeys(s, i, more, indices);
  }

  lemma RelayStep(s: System, i: nat, live: set<Conn>, indices: seq<u32>)
    requires Enabled(s, HubTakes(i, live, indices)) && s.net[i].up.Request?
    requires s.net[i].tag.Asked? && s.net[i].tag.origin.conn == s.net[i].conn
    ensures var e, h := s.net[i], s.history;
      var providers := Providers(s.registry, e.up.cap.name, live);
      HubApplied(s, i, live, indices) == s.(
        relay := Allocate(s.relay, indices, e.tag.origin.conn),
        net := Without(s.net, i) + RelayEnvelopes(providers, indices, e.up.body, h.handedOut, e.tag.origin),
        history := HistoryAfter(h, indices, e.tag.origin))
  {}

  lemma AllStillBacked(relay: map<u32, Conn>, h: History, indices: seq<u32>, origin: Origin, net: seq<Envelope>)
    requires TableInv(relay, h) && FreshIndices(relay, indices) && AllBacked(relay, h, net)
    ensures AllBacked(Allocate(relay, indices, origin.conn), HistoryAfter(h, indices, origin), net)
  {}

  lemma NewKeys(s: System, i: nat, more: seq<Envelope>, indices: seq<u32>)
    requires IndexInv(s) && i < |s.net| && |more| == |indices| && FreshIndices(s.relay, indices)
    requires Unique(ByIndex, more) && Unique(ByGrant, more)
    requires forall m :: 0 <= m < |more| ==>
      && KeyOf(ByIndex, more[m]) == Some(IndexKey(indices[m]))
      && KeyOf(ByGrant, more[m]) == Some(GrantKey(s.history.handedOut + m))
    ensures Unique(ByIndex, Without(s.net, i) + more) && Unique(ByGrant, Without(s.net, i) + more)
  {}

  /** Handler 8. */
  lemma ReplyKeeps(s: System, i: nat, live: set<Conn>, indices: seq<u32>)
    requires IndexInv(s) && Enabled(s, HubTakes(i, live, indices)) && s.net[i].up.Reply?
    ensures s.net[i].up.index in s.relay
    ensures IndexInv(HubApplied(s, i, live, indices))
  {
    hide TableInv, KeyOf;
    var e, h := s.net[i], s.history;
    var x := e.up.index;
    assert Backed(s.relay, h, e);
    var s' := HubApplied(s, i, live, indices);
    var more := if e.up.body == [] then [] else [ToClient(s.relay[x], Answer(e.up.body), e.tag)];
    assert s'.net == Without(s.net, i) + more;
    TableAfterAnswer(s.relay, h, x);
    ReplyKey(e);
    OthersBacked(s, i, x);
    AnswerBacked(s.relay, h, x, e.up.body);
    BackedAfter(s.relay, h, s.net, i, more, s'.relay, s'.history);
    AnswerKeys(e, s.relay[x]);
    UniquePassedOn(ByIndex, s.net, i, more);
    UniquePassedOn(ByGrant, s.net, i, more);
  }

  function Answered(h: History, x: u32): History
    requires x in h.grants
  {
    h.(grants := h.grants - {x}, answered := h.answered + [h.grants[x].number])
  }

  lemma OthersBacked(s: System, i: nat, x: u32)
    requires IndexInv(s) && i < |s.net| && KeyOf(ByIndex, s.net[i]) == Some(IndexKey(x)) && x in s.history.grants
    ensures forall j :: 0 <= j < |s.net| && j != i ==> Backed(s.relay - {x}, Answered(s.history, x), s.net[j])
  {}

  lemma AnswerBacked(relay: map<u32, Conn>, h: History, x: u32, body: bytes)
    requires TableInv(relay, h) && x in relay
    ensures Backed(relay - {x}, Answered(h, x), ToClient(relay[x], Answer(body), Granted(h.grants[x])))
  {}

  lemma ReplyKey(e: Envelope)
    requires e.ToHub? && e.up.Reply?
    ensures KeyOf(ByIndex, e) == Some(IndexKey(e.up.index))
  {}

  lemma AnswerKeys(e: Envelope, c: Conn)
    requires e.ToHub? && e.up.Reply?
    ensures KeyOf(ByIndex, ToClient(c, Answer(e.up.body), e.tag)).None?
    ensures KeyOf(ByGrant, ToClient(c, Answer(e.up.body), e.tag)) == KeyOf(ByGrant, e)
  {}

  lemma TableAfterAnswer(relay: map<u32, Conn>, h: History, x: u32)
    requires TableInv(relay, h) && x in relay
    ensures TableInv(relay - {x}, h.(grants := h.grants - {x}, answered := h.answered + [h.grants[x].number]))
  {
    OutstandingAfterAnswer(relay, h, x);
    AnsweredAfterAnswer(relay, h, x);
  }

  lemma OutstandingAfterAnswer(relay: map<u32, Conn>, h: History, x: u32)
    requires Outstanding(relay, h) && x in relay
    ensures Outstanding(relay - {x}, h.(grants := h.grants - {x}, answered := h.answered + [h.grants[x].number]))
  {}

  lemma AnsweredAfterAnswer(relay: map<u32, Conn>, h: History, x: u32)
    requires Outstanding(relay, h) && AnsweredOnce(h) && x in relay
    ensures AnsweredOnce(h.(grants := h.grants - {x}, answered := h.answered + [h.grants[x].number]))
  {}

  lemma HubKeeps(s: System, i: nat, live: set<Conn>, indices: seq<u32>)
    requires IndexInv(s) && Enabled(s, HubTakes(i, live, indices))
    ensures IndexInv(HubApplied(s, i, live, indices))
  {
    match s.net[i].up
    case Request(_, _) => RelayKeeps(s, i, live, indices);
    case Reply(_, _) => ReplyKeeps(s, i, live, indices);
    case _ =>
      var s' := HubApplied(s, i, live, indices);
      assert s'.net == Without(s.net, i) + [];
      PassingOnKeeps(s, i, [], s');
  }

  lemma RelayedKeeps(s: System, i: nat, index: u32, body: bytes, stray: Option<Stray>)
    requires IndexInv(s) && Enabled(s, ClientTakes(i, stray)) && s.net[i].down == Relayed(index, body)
    ensures IndexInv(RelayedApplied(s, i, index, body, stray))
  {
    BackedAt(s, i);
    RelayedStep(s, i, index, body, stray);
    hide RelayedApplied, IndexInv, Without;
    var s' := RelayedApplied(s, i, index, body, stray);
    PassingOnKeeps(s, i, s'.net[|s.net| - 1..], s');
  }

  /** At most a reply under the same index sets out. */
  lemma RelayedStep(s: System, i: nat, index: u32, body: bytes, stray: Option<Stray>)
    requires i < |s.net| && s.net[i].ToClient? && s.net[i].conn in s.clients
    ensures var s', n := RelayedApplied(s, i, index, body, stray), |s.net| - 1;
      && n <= |s'.net| <= n + 1 && s'.net == Without(s.net, i) + s'.net[n..]
      && s'.relay == s.relay && s'.history.grants == s.history.grants
      && s'.history.answered == s.history.answered && s'.history.handedOut == s.history.handedOut
      && forall m :: n <= m < |s'.net| ==>
        s'.net[m].ToHub? && s'.net[m].up.Reply? && s'.net[m].up.index == index && s'.net[m].tag == s.net[i].tag
  {
    hide ParseRequestBody, ReplyBody;
  }

  lemma BackedAt(s: System, i: nat)
    requires IndexInv(s) && i < |s.net|
    ensures Backed(s.relay, s.history, s.net[i])
  {}

  lemma AnswerKeeps(s: System, i: nat, body: bytes)
    requires IndexInv(s) && i < |s.net| && s.net[i].ToClient? && s.net[i].conn in s.clients
    ensures IndexInv(AnswerApplied(s, i, body))
  {
    hide ParseReplyBody;
    var s' := AnswerApplied(s, i, body);
    assert s'.net == Without(s.net, i) + [];
    PassingOnKeeps(s, i, [], s');
  }

  lemma StepKeeps(s: System, step: Step)
    requires IndexInv(s) && Enabled(s, step)
    ensures IndexInv(Apply(s, step))
  {
    match step
    case HubTakes(i, live, indices) => HubKeeps(s, i, live, indices);
    case ClientTakes(i, stray) =>
      match s.net[i].down {
        case Relayed(index, body) => RelayedKeeps(s, i, index, body, stray);
        case Answer(body) => AnswerKeeps(s, i, body);
      }
    case _ => OwnStepKeeps(s, step);
  }

  /** Steps of a client on its own. */
  lemma OwnStepKeeps(s: System, step: Step)
    requires IndexInv(s) && Enabled(s, step) && !step.HubTakes? && !step.ClientTakes?
    ensures IndexInv(Apply(s, step))
  {
    hide IndexInv;
    var s' := Apply(s, step);
    var more := s'.net[|s.net|..];
    assert s'.net == s.net + more;
    SendingKeeps(s, more, s'.history.sent, s'.clients);
  }

  /** The invariant holds throughout every run: each index in transit is in one
      message, outstanding, and bound to the connection whose request it was
      handed out for; handed out = answered + outstanding. */
  lemma {:induction false} IndexSafety(states: seq<System>, steps: seq<Step>, k: nat)
    requires IsRun(states, steps) && k < |states|
    ensures IndexInv(states[k])
  {
    if k > 0 {
      IndexSafety(states, steps, k - 1);
      StepKeeps(states[k - 1], steps[k - 1]);
    }
  }

  /** Every answer on the way to a client answers a request of that client, and
      every index met in a reply is outstanding for the request it answers. */
  lemma AnswersReachTheirRequester(states: seq<System>, steps: seq<Step>, k: nat, e: Envelope)
    requires IsRun(states, steps) && k < |states| && e in states[k].net
    ensures e.ToClient? && e.down.Answer? ==> e.tag.Granted? && e.tag.grant.origin.conn == e.conn
    ensures e.ToHub? && e.up.Reply? ==>
      e.up.index in states[k].relay && e.tag.Granted? && states[k].relay[e.up.index] == e.tag.grant.origin.conn
  {
    IndexSafety(states, steps, k);
    var s := states[k];
    var j :| 0 <= j < |s.net| && s.net[j] == e;
    assert Backed(s.relay, s.history, s.net[j]);
  }
}
