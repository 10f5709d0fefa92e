/** Why a capability may be added no more often than 32 bits count: one addition more,
    and the name is held with count zero
    (Plugin_InterserverClient/InterserverClient.cpp:264-280). */
module CountOverflow {
  import opened Machine
  import opened Capabilities
  import opened ClientStates
  import opened Interserver
  import opened CapabilityAgreement
  import opened Runs

  const COUNTS: nat := 0x1_0000_0000

  /** Client 0, not connected, has added the capability n times. */
  ghost predicate Counted(s: System, cap: Capability, n: nat) {
    && 0 in s.clients && !s.clients[0].isOpen
    && if n == 0 then s.clients[0].state.capabilities == map[]
      else s.clients[0].state.capabilities == map[cap.name := (cap, Wrap32(n))]
  }

  lemma CountedAgain(s: System, cap: Capability, n: nat)
    requires Counted(s, cap, n)
    ensures Enabled(s, AddCapability(0, cap)) && Counted(Apply(s, AddCapability(0, cap)), cap, n + 1)
  {
    CountWraps(n);
    hide Wrap32;
    var state := s.clients[0].state;
    assert Add(state, cap, false).0.capabilities == map[cap.name := (cap, Wrap32(n + 1))];
    hide Add;
  }

  lemma CountWraps(n: nat)
    ensures Up(Wrap32(n)) == Wrap32(n + 1) && Wrap32(1) == 1
  {}

  lemma {:induction false} CountedUp(cap: Capability, n: nat) returns (r: Run)
    ensures Legal(r) && Counted(Now(r), cap, n)
    ensures |r.steps| == n && forall j :: 0 <= j < n ==> r.steps[j] == AddCapability(0, cap)
  {
    if n == 0 {
      r := Run([System([], map[], map[0 := Fresh()], [], History(map[], 0, [], map[], map[], []))], []);
    } else {
      r := CountedUp(cap, n - 1);
      CountedAgain(Now(r), cap, n - 1);
      hide Legal, Apply, Enabled, Counted;
      r := Then(r, AddCapability(0, cap));
    }
  }

  /** 2^32 additions of one capability are a run in which a count overflows, and leave
      it held and worth nothing. */
  lemma CountsOverflow(cap: Capability) returns (states: seq<System>, steps: seq<Step>)
    ensures IsRun(states, steps) && |steps| == COUNTS
    ensures forall j :: 0 <= j < |steps| ==> steps[j] == AddCapability(0, cap)
    ensures 0 in states[|steps|].clients
    ensures states[|steps|].clients[0].state.capabilities == map[cap.name := (cap, 0)]
    ensures !NeverOverflows(states, steps)
  {
    var r := CountedUp(cap, COUNTS);
    LegalIsRun(r);
    hide IsRun;
    states, steps := r.states, r.steps;
    var last := states[|steps|].clients[0].state;
    assert Wrap32(COUNTS) == 0 && cap.name in last.capabilities && !Positive(last);
    hide Positive, NeverOverflows;
    CountsOverRuns(states, steps);
    assert !AllPositive(states[|steps|]);
  }
}
