/** What the counts of a client come to over any sequence of calls
    (Plugin_InterserverClient/InterserverClient.cpp:264-300). */
module Counting {
  import opened Machine
  import opened Capabilities
  import opened Messages
  import opened ClientStates

  /** A call of `addCapability` or `removeCapability`, the connection open or not. */
  datatype Call = Adding(cap: Capability, isOpen: bool) | Removing(cap: Capability, isOpen: bool)

  function After(s: ClientState, call: Call): (ClientState, seq<HubMessage>) {
    match call
    case Adding(cap, isOpen) => Add(s, cap, isOpen)
    case Removing(cap, isOpen) => Remove(s, cap, isOpen)
  }

  function AfterAll(s: ClientState, calls: seq<Call>): ClientState {
    if calls == [] then s else After(AfterAll(s, calls[..|calls| - 1]), calls[|calls| - 1]).0
  }

  /** Additions minus removals of a name since it was last absent. */
  function Net(calls: seq<Call>, n: bytes): nat {
    if calls == [] then 0
    else
      var before, call := Net(calls[..|calls| - 1], n), calls[|calls| - 1];
      if call.cap.name != n then before
      else if call.Adding? then before + 1
      else if before == 0 then 0
      else before - 1
  }

  /** No count outgrows its 32 bits on the way. */
  ghost predicate Bounded(calls: seq<Call>, n: bytes) {
    forall k :: 0 <= k <= |calls| ==> Net(calls[..k], n) < 0x1_0000_0000
  }

  ghost predicate CountIs(s: ClientState, n: bytes, count: nat) {
    && (n in s.capabilities <==> count > 0)
    && (n in s.capabilities ==> s.capabilities[n].1 == count)
  }

  lemma BoundedFront(calls: seq<Call>, n: bytes)
    requires calls != [] && Bounded(calls, n)
    ensures Bounded(calls[..|calls| - 1], n) && Net(calls, n) < 0x1_0000_0000
  {
    var front := calls[..|calls| - 1];
    assert calls[..|calls|] == calls;
    forall k | 0 <= k <= |front| ensures Net(front[..k], n) < 0x1_0000_0000 {
      assert front[..k] == calls[..k];
    }
  }

  /** A name is held exactly while it has been added more often than removed, and its
      count is the difference. */
  lemma {:induction false} CountsAreNet(s: ClientState, calls: seq<Call>, n: bytes)
    requires n !in s.capabilities && Bounded(calls, n)
    ensures CountIs(AfterAll(s, calls), n, Net(calls, n))
  {
    if calls != [] {
      BoundedFront(calls, n);
      CountsAreNet(s, calls[..|calls| - 1], n);
      OneCall(AfterAll(s, calls[..|calls| - 1]), calls[|calls| - 1], n, Net(calls[..|calls| - 1], n));
    }
  }

  lemma OneCall(s: ClientState, call: Call, n: bytes, count: nat)
    requires CountIs(s, n, count) && count < 0x1_0000_0000
    requires call.Adding? && call.cap.name == n ==> count + 1 < 0x1_0000_0000
    ensures CountIs(After(s, call).0, n,
      if call.cap.name != n then count else if call.Adding? then count + 1 else if count == 0 then 0 else count - 1)
  {}

  /** The hub is told exactly when the first addition makes a name held and when the
      last removal gives it up, and then of that call's capability. */
  lemma ToldAtFirstAndLast(s: ClientState, calls: seq<Call>, call: Call)
    requires call.cap.name !in s.capabilities && Bounded(calls, call.cap.name)
    ensures var net := Net(calls, call.cap.name);
      After(AfterAll(s, calls), call).1
        == if call.Adding? && net == 0 && call.isOpen then [AddCap(call.cap)]
          else if call.Removing? && net == 1 && call.isOpen then [RemoveCap(call.cap)]
          else []
  {
    var n := call.cap.name;
    CountsAreNet(s, calls, n);
    assert calls[..|calls|] == calls;
  }

  /** A removal undoes an addition, and withdraws what the addition announced, exactly
      if the name is not held with count zero. */
  lemma AddThenRemove(s: ClientState, cap: Capability, isOpen: bool)
    ensures var isNew := cap.name !in s.capabilities;
      var told := if isNew && isOpen then [RemoveCap(cap)] else [];
      Remove(Add(s, cap, isOpen).0, cap, isOpen) == (s, told) <==> isNew || s.capabilities[cap.name].1 != 0
  {
    if cap.name in s.capabilities {
      UpDown(s.capabilities[cap.name].1);
    } else {
      assert s.capabilities[cap.name := (cap, 1)] - {cap.name} == s.capabilities;
    }
    hide Up, Down;
    var added := Add(s, cap, isOpen).0.capabilities;
    assert cap.name !in added - {cap.name};
    if cap.name in s.capabilities {
      assert added[cap.name := s.capabilities[cap.name]] == s.capabilities;
    }
  }

  lemma UpDown(count: u32)
    ensures Down(Up(count)) == count && Down(1) == 0
  {}

  /** Nothing but counts changes. */
  lemma {:induction false} OnlyCounts(s: ClientState, calls: seq<Call>)
    ensures var t := AfterAll(s, calls);
      t.lastId == s.lastId && t.relays == s.relays && t.handlers == s.handlers
  {
    if calls != [] { OnlyCounts(s, calls[..|calls| - 1]); }
  }
}
