/** Maintained nodes: any number of maintainers keep a node with a time-to-live in the
    store, each with a value of its own. */
module Lease {
  import opened Wrappers

  /** maintainNode asks for renewal twice per time-to-live. */
  const FREQUENCY: nat := 2

  datatype Request = CompareAndSwap | Create

  datatype Response = Ok | KeyNotFound | KeyExists | OtherError

  /** The variables of maintainNode, and what it has told its owner so far. */
  datatype Local = Local(created: bool, owned: bool, frequencyCycle: nat, sent: seq<bool>)

  const Fresh := Local(false, false, 0, [])

  function Asks(local: Local): Request {
    if local.created then CompareAndSwap else Create
  }

  /** One turn of the inner loop: the variables after the response, and whether the loop
      goes around again at once. */
  function React(local: Local, response: Response): (Local, bool) {
    if local.created then
      if response == Ok then
        var cycle := local.frequencyCycle + 1;
        if cycle == FREQUENCY
        then (local.(owned := true, frequencyCycle := 0, sent := local.sent + [true]), false)
        else (local.(owned := true, frequencyCycle := cycle), false)
      else
        var sent := if local.owned then local.sent + [false] else local.sent;
        (local.(owned := false, frequencyCycle := 0, sent := sent, created := response != KeyNotFound),
         response == KeyNotFound)
    else if response == Ok then
      (local.(created := true, owned := true, frequencyCycle := 0, sent := local.sent + [true]), false)
    else
      (local.(frequencyCycle := 0, created := response == KeyExists), response == KeyExists)
  }

  predicate LocalInv(local: Local) {
    (local.owned ==> local.created) && local.frequencyCycle < FREQUENCY
  }

  /** The variables after a series of responses, as far as the loop reads them. */
  function ReactAll(local: Local, responses: seq<Response>): Local
    decreases |responses|
  {
    if responses == [] then local
    else
      var (next, again) := React(local, responses[0]);
      if again then ReactAll(next, responses[1..]) else next
  }

  /** The answers on which the loop goes around again at once. */
  predicate AsksAgain(request: Request, response: Response) {
    (request == CompareAndSwap && response == KeyNotFound) || (request == Create && response == KeyExists)
  }

  function RequestAt(created: bool, i: nat): Request {
    if created == (i % 2 == 0) then CompareAndSwap else Create
  }

  /** Which requests one tick makes: it asks for a renewal and for a create in turn, for as
      long as the node turns out to be gone, or to be there already. */
  predicate Asked(created: bool, responses: seq<Response>, requests: seq<Request>) {
    && |requests| <= |responses| && (requests == [] <==> responses == [])
    && (forall i | 0 <= i < |requests| :: requests[i] == RequestAt(created, i))
    && (forall i | 0 <= i < |requests| - 1 :: AsksAgain(requests[i], responses[i]))
    && (0 < |requests| < |responses| ==> !AsksAgain(requests[|requests| - 1], responses[|requests| - 1]))
  }

  /** What one tick comes to: the node is owned exactly if the last answer was Ok. The
      owner is told of a loss exactly if the node was owned and the first answer was not
      Ok, and after that of the node exactly if it was created, or renewed for the second
      time in a row. */
  predicate Told(before: Local, responses: seq<Response>, requests: seq<Request>, after: Local)
    requires |requests| <= |responses|
  {
    if requests == [] then after == before
    else
      var request, response := requests[|requests| - 1], responses[|requests| - 1];
      && (after.owned <==> response == Ok)
      && (after.created <==> response == Ok || ((request == CompareAndSwap) != AsksAgain(request, response)))
      && after.sent == before.sent
         + (if before.owned && responses[0] != Ok then [false] else [])
         + (if response == Ok && (request == Create || (|requests| == 1 && before.frequencyCycle == 1))
            then [true] else [])
      && after.frequencyCycle ==
         if response == Ok && request == CompareAndSwap && (|requests| > 1 || before.frequencyCycle == 0) then 1 else 0
  }

  /** The requests that the answers belong to. */
  function AskedAll(local: Local, responses: seq<Response>): seq<Request>
    decreases |responses|
  {
    if responses == [] then []
    else
      var (next, again) := React(local, responses[0]);
      [Asks(local)] + if again then AskedAll(next, responses[1..]) else []
  }

  lemma {:induction false} AskedAllInTurn(local: Local, responses: seq<Response>)
    ensures Asked(local.created, responses, AskedAll(local, responses))
    decreases |responses|
  {
    if responses != [] {
      var (next, again) := React(local, responses[0]);
      if again {
        AskedAllInTurn(next, responses[1..]);
        AskedFirst(local.created, responses, AskedAll(next, responses[1..]));
      }
    }
  }

  /** One request before those that follow it, which begin the other way around. */
  lemma AskedFirst(created: bool, responses: seq<Response>, rest: seq<Request>)
    requires responses != [] && AsksAgain(RequestAt(created, 0), responses[0])
    requires Asked(!created, responses[1..], rest)
    ensures Asked(created, responses, [RequestAt(created, 0)] + rest)
  {
    var requests := [RequestAt(created, 0)] + rest;
    forall i | 0 <= i < |requests|
      ensures requests[i] == RequestAt(created, i)
      ensures i < |requests| - 1 ==> AsksAgain(requests[i], responses[i])
    {
      if i > 0 {
        assert requests[i] == rest[i - 1] == RequestAt(!created, i - 1) && responses[i] == responses[1..][i - 1];
      }
    }
    if 1 < |requests| < |responses| {
      assert responses[|requests| - 1] == responses[1..][|rest| - 1];
    }
  }

  lemma {:induction false} ReactAllTells(local: Local, responses: seq<Response>)
    requires LocalInv(local)
    ensures Asked(local.created, responses, AskedAll(local, responses))
    ensures Told(local, responses, AskedAll(local, responses), ReactAll(local, responses))
    ensures LocalInv(ReactAll(local, responses))
    decreases |responses|
  {
    AskedAllInTurn(local, responses);
    if responses != [] {
      var (next, again) := React(local, responses[0]);
      assert local.sent + [] + [] == local.sent + [] == local.sent;
      if again && responses[1..] != [] {
        var rest, asked := responses[1..], AskedAll(next, responses[1..]);
        ReactAllTells(next, rest);
        assert AskedAll(local, responses)[|asked|] == asked[|asked| - 1] && responses[|asked|] == rest[|asked| - 1];
        var lost := if local.owned then [false] else [];
        assert next.sent == local.sent + lost && !next.owned && next.frequencyCycle == 0;
        assert ReactAll(local, responses) == ReactAll(next, rest);
        assert next.sent + [] == next.sent;
      }
    }
  }

  /** The loop of maintainNode that a timer tick starts. */
  class Maintainer {
    var created: bool
    var owned: bool
    var frequencyCycle: nat
    var sent: seq<bool>

    function Variables(): Local
      reads this
    {
      Local(created, owned, frequencyCycle, sent)
    }

    constructor ()
      ensures Variables() == Fresh && LocalInv(Variables())
    {
      created, owned, frequencyCycle, sent := false, false, 0, [];
    }

    /** `responses` are the store's answers to the requests as they are made; the loop
        runs until it breaks or waits for one more. */
    method OnTimer(responses: seq<Response>) returns (requests: seq<Request>)
      requires LocalInv(Variables())
      modifies this
      ensures LocalInv(Variables()) && Asked(old(created), responses, requests)
      ensures Told(old(Variables()), responses, requests, Variables())
    {
      requests := [];
      for i := 0 to |responses|
        invariant LocalInv(Variables())
        invariant |requests| == i && (created <==> (old(created) == (i % 2 == 0)))
        invariant forall j | 0 <= j < i :: requests[j] == RequestAt(old(created), j)
        invariant forall j | 0 <= j < i :: AsksAgain(requests[j], responses[j])
        invariant i == 0 ==> Variables() == old(Variables())
        invariant i > 0 ==> !owned && frequencyCycle == 0
        invariant i > 0 ==> sent == old(sent) + if old(owned) then [false] else []
      {
        var response := responses[i];
        if created {
          requests := requests + [CompareAndSwap];
          if response == Ok {
            frequencyCycle := frequencyCycle + 1;
            owned := true;
            if frequencyCycle == FREQUENCY {
              sent := sent + [true];
              frequencyCycle := 0;
            }
            return;
          }
          frequencyCycle := 0;
          if owned {
            owned := false;
            sent := sent + [false];
          }
          if response == KeyNotFound {
            created := false;
            continue;
          }
          return;
        } else {
          requests := requests + [Create];
          frequencyCycle := 0;
          if response == Ok {
            created := true;
            owned := true;
            sent := sent + [true];
            return;
          }
          if response == KeyExists {
            created := true;
            continue;
          }
          return;
        }
      }
    }
  }

  /** That says all there is to say: the variables are those of the reaction function. */
  lemma TickIsReactAll(before: Local, responses: seq<Response>, requests: seq<Request>, after: Local)
    requires LocalInv(before) && Asked(before.created, responses, requests) && Told(before, responses, requests, after)
    ensures requests == AskedAll(before, responses) && after == ReactAll(before, responses)
  {
    ReactAllTells(before, responses);
    AskedOnce(before.created, responses, requests, AskedAll(before, responses));
  }

  lemma AskedOnce(created: bool, responses: seq<Response>, requests: seq<Request>, requests': seq<Request>)
    requires Asked(created, responses, requests) && Asked(created, responses, requests')
    ensures requests == requests'
  {
    AskedNoFewer(created, responses, requests, requests');
    AskedNoFewer(created, responses, requests', requests);
  }

  lemma AskedNoFewer(created: bool, responses: seq<Response>, requests: seq<Request>, requests': seq<Request>)
    requires Asked(created, responses, requests) && Asked(created, responses, requests')
    ensures |requests'| >= |requests|
  {
  }

  // ------------------------------------------------ maintainers around one timed store

  /** The stored node: the value in it and the store time when it expires. */
  datatype Node = Node(value: string, expires: int)

  datatype Event = Grab(who: nat, at: int) | Release(who: nat, at: int)

  datatype Phase = Waiting | Calling | Done

  datatype State = State(node: Option<Node>, clock: int, locals: map<nat, Local>, phases: map<nat, Phase>,
      events: seq<Event>)

  /** Whose request takes effect: it is answered, or its answer is lost on the way back,
      or the request itself is lost or fails. */
  datatype Fate = Answered | EffectOnly | NoEffect

  datatype Step =
    | Tick(now: int)
    | Expire
    | Fire(who: nat)
    | Call(who: nat, fate: Fate)
    | ReleaseNode(who: nat, fate: Fate)

  predicate Takes(s: State, request: Request, value: string) {
    match request
    case CompareAndSwap => s.node.Some? && s.node.value.value == value
    case Create => s.node.None?
  }

  function Answer(s: State, request: Request, value: string): Response {
    if Takes(s, request, value) then Ok
    else match request
      case CompareAndSwap => if s.node.None? then KeyNotFound else OtherError
      case Create => KeyExists
  }

  function Init(values: map<nat, string>): State {
    State(None, 0, map m | m in values :: Fresh, map m | m in values :: Waiting, [])
  }

  ghost predicate Next(values: map<nat, string>, ttl: nat, s: State, step: Step, s': State) {
    match step
    case Tick(now) => now >= s.clock && s' == s.(clock := now)
    case Expire => s.node.Some? && s.node.value.expires <= s.clock && s' == s.(node := None)
    case Fire(who) => who in s.phases && s.phases[who] == Waiting && s' == s.(phases := s.phases[who := Calling])
    case Call(who, fate) =>
      && who in values && who in s.locals && who in s.phases && s.phases[who] == Calling
      && var request := Asks(s.locals[who]);
      && var response := if fate == Answered then Answer(s, request, values[who]) else OtherError;
      && var (next, again) := React(s.locals[who], response);
      && var s1 := s.(locals := s.locals[who := next], phases := s.phases[who := if again then Calling else Waiting]);
      && s' == if fate != NoEffect && Takes(s, request, values[who])
               then s1.(node := Some(Node(values[who], s.clock + ttl)), events := s.events + [Grab(who, s.clock)])
               else s1
    case ReleaseNode(who, fate) =>
      && who in values && who in s.phases && s.phases[who] == Waiting
      && var s1 := s.(phases := s.phases[who := Done]);
      && s' == if fate != NoEffect && Takes(s, CompareAndSwap, values[who])
               then s1.(node := None, events := s.events + [Release(who, s.clock)])
               else s1
  }

  ghost predicate ReleasedAfter(events: seq<Event>, i: nat, j: nat, who: nat)
    requires j <= |events|
  {
    exists k :: i < k < j && events[k].Release? && events[k].who == who
  }

  /** While a grab's time-to-live has not passed and its maker has not released, the node
      holds the maker's value for at least that long. */
  ghost predicate GrabHolds(values: map<nat, string>, ttl: nat, s: State, i: nat)
    requires i < |s.events|
  {
    s.events[i].Grab? && s.clock < s.events[i].at + ttl && !ReleasedAfter(s.events, i, |s.events|, s.events[i].who) ==>
      && s.events[i].who in values && s.node.Some?
      && s.node.value.value == values[s.events[i].who]
      && s.node.value.expires >= s.events[i].at + ttl
  }

  ghost predicate Inv(values: map<nat, string>, ttl: nat, s: State) {
    && (forall i | 0 <= i < |s.events| :: GrabHolds(values, ttl, s, i) && s.events[i].at <= s.clock)
    && (forall i | 0 <= i < |s.events| :: s.events[i].who in values)
    && (forall m | m in s.locals :: LocalInv(s.locals[m]))
    && Exclusive(values, ttl, s.events)
  }

  /** The exclusion theorem's statement: a grab rules out grabs by others for its time-to-live
      unless its maker released the node in between. */
  ghost predicate Exclusive(values: map<nat, string>, ttl: nat, events: seq<Event>) {
    forall i, j | 0 <= i < j < |events| && events[i].Grab? && events[j].Grab? && events[i].who != events[j].who ::
      events[j].at >= events[i].at + ttl || ReleasedAfter(events, i, j, events[i].who)
  }

  ghost predicate DistinctValues(values: map<nat, string>) {
    forall a, b | a in values && b in values && values[a] == values[b] :: a == b
  }

  lemma ReleasedLonger(events: seq<Event>, e: Event, i: nat, j: nat, who: nat)
    requires j <= |events|
    ensures ReleasedAfter(events + [e], i, j, who) <==> ReleasedAfter(events, i, j, who)
    ensures ReleasedAfter(events, i, j, who) ==> ReleasedAfter(events + [e], i, |events| + 1, who)
  {
    if k :| i < k < j && events[k].Release? && events[k].who == who {
      assert (events + [e])[k].Release?;
    }
    if k :| i < k < j && (events + [e])[k].Release? && (events + [e])[k].who == who {
      assert events[k].Release?;
    }
  }

  /** A grab happens only when no earlier grab by another maintainer still holds. */
  lemma GrabKeepsExclusive(values: map<nat, string>, ttl: nat, s: State, who: nat, request: Request)
    requires DistinctValues(values) && Inv(values, ttl, s) && who in values && Takes(s, request, values[who])
    ensures Exclusive(values, ttl, s.events + [Grab(who, s.clock)])
  {
    var e := Grab(who, s.clock);
    var events := s.events + [e];
    forall i, j | 0 <= i < j < |events| && events[i].Grab? && events[j].Grab? && events[i].who != events[j].who
      ensures events[j].at >= events[i].at + ttl || ReleasedAfter(events, i, j, events[i].who)
    {
      ReleasedLonger(s.events, e, i, j, events[i].who);
      if j == |s.events| {
        assert GrabHolds(values, ttl, s, i);
      }
    }
  }

  lemma GrabKeepsHolds(values: map<nat, string>, ttl: nat, s: State, who: nat, request: Request, s': State)
    requires DistinctValues(values) && Inv(values, ttl, s) && who in values && Takes(s, request, values[who])
    requires s'.clock == s.clock && s'.node == Some(Node(values[who], s.clock + ttl))
    requires s'.events == s.events + [Grab(who, s.clock)]
    ensures forall i | 0 <= i < |s'.events| :: GrabHolds(values, ttl, s', i)
  {
    forall i | 0 <= i < |s.events| ensures GrabHolds(values, ttl, s', i) {
      ReleasedLonger(s.events, Grab(who, s.clock), i, |s.events|, s.events[i].who);
      assert GrabHolds(values, ttl, s, i);
      assert s'.events[i] == s.events[i];
    }
    assert GrabHolds(values, ttl, s', |s.events|);
  }

  lemma ReleaseKeeps(values: map<nat, string>, ttl: nat, s: State, who: nat, s': State)
    requires DistinctValues(values) && Inv(values, ttl, s) && who in values && Takes(s, CompareAndSwap, values[who])
    requires s'.clock == s.clock && s'.node == None && s'.events == s.events + [Release(who, s.clock)]
    ensures forall i | 0 <= i < |s'.events| :: GrabHolds(values, ttl, s', i)
    ensures Exclusive(values, ttl, s'.events)
  {
    var e := Release(who, s.clock);
    forall i | 0 <= i < |s.events| ensures GrabHolds(values, ttl, s', i) {
      ReleasedLonger(s.events, e, i, |s.events|, s.events[i].who);
      assert GrabHolds(values, ttl, s, i);
      if s.events[i].who == who {
        assert s'.events[|s.events|].Release? && s'.events[|s.events|].who == who;
      }
    }
    forall i, j | 0 <= i < j < |s'.events| && s'.events[i].Grab? && s'.events[j].Grab? &&
        s'.events[i].who != s'.events[j].who
      ensures s'.events[j].at >= s'.events[i].at + ttl || ReleasedAfter(s'.events, i, j, s'.events[i].who)
    {
      ReleasedLonger(s.events, e, i, j, s.events[i].who);
    }
  }

  lemma QuietKeeps(values: map<nat, string>, ttl: nat, s: State, s': State)
    requires Inv(values, ttl, s) && s'.events == s.events && s'.clock >= s.clock
    requires s'.node == s.node || (s'.node == None && s.node.Some? && s.node.value.expires <= s'.clock)
    ensures forall i | 0 <= i < |s'.events| :: GrabHolds(values, ttl, s', i)
  {
    forall i | 0 <= i < |s'.events| ensures GrabHolds(values, ttl, s', i) {
      assert GrabHolds(values, ttl, s, i);
    }
  }

  lemma ReactKeepsLocal(local: Local, response: Response)
    requires LocalInv(local)
    ensures LocalInv(React(local, response).0)
  {
  }

  lemma StepKeepsInv(values: map<nat, string>, ttl: nat, s: State, step: Step, s': State)
    requires DistinctValues(values) && Inv(values, ttl, s) && Next(values, ttl, s, step, s')
    ensures Inv(values, ttl, s')
  {
    match step
    case Tick(now) => QuietKeeps(values, ttl, s, s');
    case Expire => QuietKeeps(values, ttl, s, s');
    case Fire(who) => QuietKeeps(values, ttl, s, s');
    case Call(who, fate) =>
      var request := Asks(s.locals[who]);
      ReactKeepsLocal(s.locals[who], if fate == Answered then Answer(s, request, values[who]) else OtherError);
      if fate != NoEffect && Takes(s, request, values[who]) {
        GrabKeepsExclusive(values, ttl, s, who, request);
        GrabKeepsHolds(values, ttl, s, who, request, s');
      } else {
        QuietKeeps(values, ttl, s, s');
      }
    case ReleaseNode(who, fate) =>
      if fate != NoEffect && Takes(s, CompareAndSwap, values[who]) {
        ReleaseKeeps(values, ttl, s, who, s');
      } else {
        QuietKeeps(values, ttl, s, s');
      }
  }

  ghost predicate IsRun(values: map<nat, string>, ttl: nat, states: seq<State>, steps: seq<Step>) {
    && |states| == |steps| + 1 && states[0] == Init(values)
    && forall i | 0 <= i < |steps| :: Next(values, ttl, states[i], steps[i], states[i + 1])
  }

  lemma {:induction false} RunKeepsInv(values: map<nat, string>, ttl: nat, states: seq<State>, steps: seq<Step>, i: nat)
    requires DistinctValues(values) && IsRun(values, ttl, states, steps) && i < |states|
    ensures Inv(values, ttl, states[i])
  {
    if i > 0 {
      RunKeepsInv(values, ttl, states, steps, i - 1);
      StepKeepsInv(values, ttl, states[i - 1], steps[i - 1], states[i]);
    }
  }

  /** With distinct values a create or renewal that took effect at store time t rules out
      any by another maintainer before t + ttl, unless the first released the node; and
      whoever takes itself for the owner has created the node. */
  lemma LeaseExclusion(values: map<nat, string>, ttl: nat, states: seq<State>, steps: seq<Step>, n: nat)
    requires DistinctValues(values) && IsRun(values, ttl, states, steps) && n < |states|
    ensures Exclusive(values, ttl, states[n].events)
    ensures forall m | m in states[n].locals && states[n].locals[m].owned :: states[n].locals[m].created
  {
    RunKeepsInv(values, ttl, states, steps, n);
  }

  /** Distinct values are needed: of any two maintainers with the same value, both can
      grab the node at once and both take themselves for the owner. */
  lemma SharedValueShares(values: map<nat, string>, ttl: nat, a: nat, b: nat)
    returns (states: seq<State>, steps: seq<Step>)
    requires a in values && b in values && a != b && values[a] == values[b] && ttl > 0
    ensures IsRun(values, ttl, states, steps)
    ensures var s := states[|steps|];
            !Exclusive(values, ttl, s.events) && a in s.locals && b in s.locals && s.locals[a].owned &&
                s.locals[b].owned
  {
    var s0 := Init(values);
    var owner := Local(true, true, 0, [true]);
    var s1 := s0.(phases := s0.phases[a := Calling]);
    var s2 := s1.(locals := s1.locals[a := owner], phases := s1.phases[a := Waiting],
                  node := Some(Node(values[a], ttl)), events := s1.events + [Grab(a, 0)]);
    assert [] + [true] == [true];
    var s3 := s2.(phases := s2.phases[b := Calling]);
    var s4 := s3.(locals := s3.locals[b := Local(true, false, 0, [])], phases := s3.phases[b := Calling]);
    var s5 := s4.(locals := s4.locals[b := Local(true, true, 1, [])], phases := s4.phases[b := Waiting],
                  node := Some(Node(values[b], ttl)), events := s4.events + [Grab(b, 0)]);
    states := [s0, s1, s2, s3, s4, s5];
    steps := [Fire(a), Call(a, Answered), Fire(b), Call(b, Answered), Call(b, Answered)];
    assert Next(values, ttl, s0, steps[0], s1);
    assert Next(values, ttl, s1, steps[1], s2);
    assert Next(values, ttl, s2, steps[2], s3);
    assert Next(values, ttl, s3, steps[3], s4);
    assert Next(values, ttl, s4, steps[4], s5);
    assert s5.events[0] == Grab(a, 0) && s5.events[1] == Grab(b, 0);
  }
}
