/** Who takes itself for the owner of a maintained node, and what it has been told. */
module LeaseOwner {
  import opened Wrappers
  import opened Lease

  // ------------------------------------------------------------ one maintainer

  /** The variables after all the answers that a maintainer has had. */
  function After(responses: seq<Response>): Local {
    if responses == [] then Fresh
    else React(After(responses[..|responses| - 1]), responses[|responses| - 1]).0
  }

  /** How many of the last requests were renewals that the store granted. */
  function RenewalsInARow(responses: seq<Response>): nat {
    if responses == [] then 0
    else
      var before := responses[..|responses| - 1];
      if responses[|responses| - 1] == Ok && After(before).created then 1 + RenewalsInARow(before) else 0
  }

  lemma {:induction false} CycleCountsRenewals(responses: seq<Response>)
    ensures After(responses).frequencyCycle == RenewalsInARow(responses) % 2
    ensures LocalInv(After(responses))
  {
    if responses != [] {
      CycleCountsRenewals(responses[..|responses| - 1]);
    }
  }

  /** However long a maintainer has run: after an answer it owns the node exactly if that
      answer was Ok. It tells its owner of the node when it creates it and on every second
      renewal in a row, of its loss when it stops to own it, and nothing else; and it knows
      the node created until it is told that the node is gone. */
  lemma AnswerTells(responses: seq<Response>, response: Response)
    ensures var before, after := After(responses), After(responses + [response]);
            && (after.owned <==> response == Ok)
            && (after.created <==>
                  if before.created then response != KeyNotFound else response == Ok || response == KeyExists)
            && after.sent == before.sent +
                 if response != Ok then if before.owned then [false] else []
                 else if !before.created || RenewalsInARow(responses + [response]) % 2 == 0 then [true]
                 else []
  {
    var all := responses + [response];
    assert all[..|all| - 1] == responses && all[|all| - 1] == response;
    CycleCountsRenewals(responses);
    var sent := After(responses).sent;
    assert sent + [] == sent;
  }

  /** Who does not own the node was told so last, if anything. */
  lemma {:induction false} LossIsTold(responses: seq<Response>)
    ensures var local := After(responses);
            !local.owned && local.sent != [] ==> !local.sent[|local.sent| - 1]
  {
    if responses != [] {
      var before, last := responses[..|responses| - 1], responses[|responses| - 1];
      assert before + [last] == responses;
      LossIsTold(before);
      AnswerTells(before, last);
    }
  }

  // ------------------------------------------------- maintainers around the store

  /** The last request of the maintainer was made in step k. */
  ghost predicate LastCall(steps: seq<Step>, n: nat, who: nat, k: nat)
    requires n <= |steps|
  {
    && k < n && steps[k].Call? && steps[k].who == who
    && forall m | k < m < n :: !(steps[m].Call? && steps[m].who == who)
  }

  /** The request took effect in the store, and the maintainer heard of it. */
  ghost predicate Grabbed(states: seq<State>, steps: seq<Step>, k: nat, who: nat)
    requires |states| == |steps| + 1 && k < |steps|
  {
    && steps[k].Call? && steps[k].fate == Answered
    && states[k + 1].events == states[k].events + [Grab(who, states[k].clock)]
  }

  lemma {:induction false} RunKeepsLocals(values: map<nat, string>, ttl: nat, states: seq<State>, steps: seq<Step>,
      n: nat, who: nat)
    requires IsRun(values, ttl, states, steps) && n < |states| && who in states[n].locals
    ensures LocalInv(states[n].locals[who])
  {
    if n > 0 {
      assert Next(values, ttl, states[n - 1], steps[n - 1], states[n]);
      RunKeepsLocals(values, ttl, states, steps, n - 1, who);
    }
  }

  lemma CallOwns(values: map<nat, string>, ttl: nat, states: seq<State>, steps: seq<Step>, k: nat, who: nat)
    requires IsRun(values, ttl, states, steps) && k < |steps| && steps[k].Call? && steps[k].who == who
    ensures who in states[k + 1].locals && (states[k + 1].locals[who].owned <==> Grabbed(states, steps, k, who))
  {
    assert Next(values, ttl, states[k], steps[k], states[k + 1]);
    var s, events := states[k], states[k].events;
    assert |events + [Grab(who, s.clock)]| == |events| + 1;
    var request := Asks(s.locals[who]);
    var response := if steps[k].fate == Answered then Answer(s, request, values[who]) else OtherError;
    assert response == Ok <==> steps[k].fate == Answered && Takes(s, request, values[who]);
    assert states[k + 1].locals[who] == React(s.locals[who], response).0;
    RunKeepsLocals(values, ttl, states, steps, k, who);
    OwnsAfterOk(s.locals[who], response);
  }

  lemma OwnsAfterOk(local: Local, response: Response)
    requires LocalInv(local)
    ensures React(local, response).0.owned <==> response == Ok
  {
  }

  lemma OthersKeep(values: map<nat, string>, ttl: nat, s: State, step: Step, s': State, who: nat)
    requires Next(values, ttl, s, step, s') && !(step.Call? && step.who == who)
    ensures who in s'.locals <==> who in s.locals
    ensures who in s.locals ==> s'.locals[who] == s.locals[who]
  {
  }

  /** In every state of every run a maintainer takes itself for the owner if and only if
      its last request took effect and was answered. */
  lemma {:induction false} OwnsIff(values: map<nat, string>, ttl: nat, states: seq<State>, steps: seq<Step>, n: nat,
      who: nat)
    requires IsRun(values, ttl, states, steps) && n < |states| && who in states[n].locals
    ensures states[n].locals[who].owned <==>
            exists k :: LastCall(steps, n, who, k) && Grabbed(states, steps, k, who)
  {
    if n > 0 {
      var step := steps[n - 1];
      assert Next(values, ttl, states[n - 1], step, states[n]);
      if step.Call? && step.who == who {
        CallOwns(values, ttl, states, steps, n - 1, who);
        assert LastCall(steps, n, who, n - 1);
      } else {
        OthersKeep(values, ttl, states[n - 1], step, states[n], who);
        OwnsIff(values, ttl, states, steps, n - 1, who);
        assert forall k :: LastCall(steps, n, who, k) <==> LastCall(steps, n - 1, who, k);
      }
    }
  }

  lemma {:induction false} EventsGrow(values: map<nat, string>, ttl: nat, states: seq<State>, steps: seq<Step>, k: nat,
      n: nat)
    requires IsRun(values, ttl, states, steps) && k <= n < |states|
    ensures states[k].events <= states[n].events && states[k].clock <= states[n].clock
    decreases n
  {
    if k < n {
      EventsGrow(values, ttl, states, steps, k, n - 1);
      assert Next(values, ttl, states[n - 1], steps[n - 1], states[n]);
    }
  }

  /** Who has released the node is done. */
  lemma {:induction false} ReleasedIsDone(values: map<nat, string>, ttl: nat, states: seq<State>, steps: seq<Step>,
      n: nat, i: nat)
    requires IsRun(values, ttl, states, steps) && n < |states| && i < |states[n].events| && states[n].events[i].Release?
    ensures states[n].events[i].who in states[n].phases && states[n].phases[states[n].events[i].who] == Done
  {
    assert n > 0 && Next(values, ttl, states[n - 1], steps[n - 1], states[n]);
    if i < |states[n - 1].events| {
      ReleasedIsDone(values, ttl, states, steps, n - 1, i);
    }
  }

  /** With distinct values: of two maintainers that both take themselves for the owner and
      have not released the node, one has made its last request at least a time-to-live
      after the other, by the clock of the store. */
  lemma OwnersAreApart(values: map<nat, string>, ttl: nat, states: seq<State>, steps: seq<Step>, n: nat, a: nat, b: nat)
    returns (k: nat, l: nat)
    requires DistinctValues(values) && IsRun(values, ttl, states, steps) && n < |states| && a != b
    requires a in states[n].locals && states[n].locals[a].owned && b in states[n].locals && states[n].locals[b].owned
    requires a in states[n].phases && states[n].phases[a] != Done
    requires b in states[n].phases && states[n].phases[b] != Done
    ensures LastCall(steps, n, a, k) && Grabbed(states, steps, k, a)
    ensures LastCall(steps, n, b, l) && Grabbed(states, steps, l, b)
    ensures states[l].clock >= states[k].clock + ttl || states[k].clock >= states[l].clock + ttl
  {
    OwnsIff(values, ttl, states, steps, n, a);
    OwnsIff(values, ttl, states, steps, n, b);
    k :| LastCall(steps, n, a, k) && Grabbed(states, steps, k, a);
    l :| LastCall(steps, n, b, l) && Grabbed(states, steps, l, b);
    if k < l {
      GrabsAreApart(values, ttl, states, steps, n, a, k, b, l);
    } else {
      GrabsAreApart(values, ttl, states, steps, n, b, l, a, k);
    }
  }

  lemma GrabsAreApart(values: map<nat, string>, ttl: nat, states: seq<State>, steps: seq<Step>, n: nat,
                      a: nat, k: nat, b: nat, l: nat)
    requires DistinctValues(values) && IsRun(values, ttl, states, steps) && k < l < n < |states| && a != b
    requires Grabbed(states, steps, k, a) && Grabbed(states, steps, l, b)
    requires a in states[n].phases && states[n].phases[a] != Done
    ensures states[l].clock >= states[k].clock + ttl
  {
    EventsGrow(values, ttl, states, steps, k + 1, l);
    EventsGrow(values, ttl, states, steps, k + 1, n);
    EventsGrow(values, ttl, states, steps, l + 1, n);
    var i, j, events := |states[k].events|, |states[l].events|, states[n].events;
    assert states[k + 1].events[i] == events[i] == Grab(a, states[k].clock);
    assert states[l + 1].events[j] == events[j] == Grab(b, states[l].clock);
    LeaseExclusion(values, ttl, states, steps, n);
    if ReleasedAfter(events, i, j, a) {
      var m :| i < m < j && events[m].Release? && events[m].who == a;
      ReleasedIsDone(values, ttl, states, steps, n, m);
      assert false;
    }
  }
}
