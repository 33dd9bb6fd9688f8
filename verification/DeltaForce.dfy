/** The difference between the instances wanted of an application and those there are. */
module DeltaForce {

  datatype ActualInstance = ActualInstance(index: int, guid: string)

  datatype Result = Result(indicesToStart: seq<int>, guidsToStop: seq<string>, indicesToStopAllButOne: seq<int>) {
    predicate Empty() {
      |indicesToStart| == 0 && |guidsToStop| == 0 && |indicesToStopAllButOne| == 0
    }
  }

  predicate Covered(actuals: seq<ActualInstance>, index: int) {
    exists p | 0 <= p < |actuals| :: actuals[p].index == index
  }

  /** The positions of the instances at an index: counting them counts the instances. */
  function Positions(actuals: seq<ActualInstance>, index: int): set<int> {
    set p | 0 <= p < |actuals| && actuals[p].index == index
  }

  predicate AllCovered(n: int, actuals: seq<ActualInstance>) {
    forall i | 0 <= i < n :: Covered(actuals, i)
  }

  /** The guids of the instances at the indices that are not wanted, as they are listed. */
  function Beyond(n: int, actuals: seq<ActualInstance>): seq<string> {
    if actuals == [] then []
    else
      var last := actuals[|actuals| - 1];
      Beyond(n, actuals[..|actuals| - 1]) + if last.index >= n then [last.guid] else []
  }

  lemma {:induction false} BeyondHolds(n: int, actuals: seq<ActualInstance>, guid: string)
    ensures guid in Beyond(n, actuals) <==> exists p ::
        0 <= p < |actuals| && actuals[p].guid == guid && actuals[p].index >= n
  {
    if actuals != [] {
      var before := actuals[..|actuals| - 1];
      BeyondHolds(n, before, guid);
      if p :| 0 <= p < |before| && before[p].guid == guid && before[p].index >= n {
        assert actuals[p] == before[p];
      }
    }
  }

  /** The positions of the instances beyond, in the order of the listing. */
  ghost predicate BeyondAt(n: int, actuals: seq<ActualInstance>, guids: seq<string>, at: seq<int>) {
    && |at| == |guids| && Ascending(at)
    && (forall k | 0 <= k < |at| :: 0 <= at[k] < |actuals| && actuals[at[k]].guid == guids[k])
    && forall p :: p in at <==> 0 <= p < |actuals| && actuals[p].index >= n
  }

  /** There is one guid for every instance beyond, in the order of the listing. */
  lemma {:induction false} BeyondInOrder(n: int, actuals: seq<ActualInstance>) returns (at: seq<int>)
    ensures BeyondAt(n, actuals, Beyond(n, actuals), at)
  {
    at := [];
    if actuals != [] {
      var before, last := actuals[..|actuals| - 1], actuals[|actuals| - 1];
      assert actuals == before + [last];
      at := BeyondInOrder(n, before);
      OneBeyondMore(n, before, Beyond(n, before), at, last);
      at := if last.index >= n then at + [|before|] else at;
    }
  }

  lemma OneBeyondMore(n: int, actuals: seq<ActualInstance>, guids: seq<string>, at: seq<int>, last: ActualInstance)
    requires BeyondAt(n, actuals, guids, at)
    ensures if last.index >= n then BeyondAt(n, actuals + [last], guids + [last.guid], at + [|actuals|])
            else BeyondAt(n, actuals + [last], guids, at)
  {
    var more := actuals + [last];
    assert forall p | 0 <= p < |actuals| :: more[p] == actuals[p];
    if last.index >= n {
      AppendAscending(at, |actuals|);
      assert forall p :: p in at + [|actuals|] <==> p in at || p == |actuals|;
    }
  }

  predicate Ascending(s: seq<int>) {
    forall i, j | 0 <= i < j < |s| :: s[i] < s[j]
  }

  lemma AppendAscending(s: seq<int>, x: int)
    requires Ascending(s) && forall i :: i in s ==> i < x
    ensures Ascending(s + [x])
  {
    assert forall k | 0 <= k < |s| :: s[k] in s;
  }

  /** Exactly one instance at every wanted index, and none beyond. */
  predicate AsDesired(n: int, actuals: seq<ActualInstance>) {
    && (forall i | 0 <= i < n :: |Positions(actuals, i)| == 1)
    && (forall p | 0 <= p < |actuals| :: actuals[p].index < n)
  }

  method HasIndex(actuals: seq<ActualInstance>, index: int) returns (has: bool)
    ensures has <==> Covered(actuals, index)
  {
    for p := 0 to |actuals|
      invariant forall q | 0 <= q < p :: actuals[q].index != index
    {
      if actuals[p].index == index {
        return true;
      }
    }
    return false;
  }

  lemma OnePositionMore(actuals: seq<ActualInstance>, p: nat, index: int)
    requires p < |actuals|
    ensures Positions(actuals[..p + 1], index) ==
            Positions(actuals[..p], index) + if actuals[p].index == index then {p as int} else {}
  {
    assert forall q | 0 <= q < p :: actuals[..p][q] == actuals[..p + 1][q];
  }

  method NumAtIndex(actuals: seq<ActualInstance>, index: int) returns (count: nat)
    ensures count == |Positions(actuals, index)|
  {
    count := 0;
    assert Positions(actuals[..0], index) == {};
    for p := 0 to |actuals|
      invariant count == |Positions(actuals[..p], index)|
    {
      OnePositionMore(actuals, p, index);
      if actuals[p].index == index {
        count := count + 1;
      }
    }
    assert actuals[..|actuals|] == actuals;
  }

  /** While some wanted index is empty the result only starts instances: nothing is
      stopped before every wanted index is covered. */
  method Reconcile(numDesired: int, actuals: seq<ActualInstance>) returns (result: Result)
    ensures Ascending(result.indicesToStart)
    ensures forall i :: i in result.indicesToStart <==> 0 <= i < numDesired && !Covered(actuals, i)
    ensures !AllCovered(numDesired, actuals) ==> result.guidsToStop == [] && result.indicesToStopAllButOne == []
    ensures AllCovered(numDesired, actuals) ==>
              && result.guidsToStop == Beyond(numDesired, actuals)
              && Ascending(result.indicesToStopAllButOne)
              && forall i :: i in result.indicesToStopAllButOne <==> 0 <= i < numDesired && |Positions(actuals, i)| > 1
    ensures result.Empty() <==> AsDesired(numDesired, actuals)
  {
    result := Result([], [], []);
    var i := 0;
    while i < numDesired
      invariant 0 <= i && (i > 0 ==> i <= numDesired)
      invariant Ascending(result.indicesToStart) && result == Result(result.indicesToStart, [], [])
      invariant forall j :: j in result.indicesToStart <==> 0 <= j < i && !Covered(actuals, j)
    {
      var has := HasIndex(actuals, i);
      if !has {
        AppendAscending(result.indicesToStart, i);
        result := result.(indicesToStart := result.indicesToStart + [i]);
      }
      i := i + 1;
    }
    if |result.indicesToStart| > 0 {
      var missing := result.indicesToStart[0];
      assert missing in result.indicesToStart && Positions(actuals, missing) == {};
      return;
    }

    for p := 0 to |actuals|
      invariant result == Result([], Beyond(numDesired, actuals[..p]), [])
    {
      assert actuals[..p + 1][..p] == actuals[..p];
      if actuals[p].index >= numDesired {
        result := result.(guidsToStop := result.guidsToStop + [actuals[p].guid]);
      }
    }
    assert actuals[..|actuals|] == actuals;

    i := 0;
    while i < numDesired
      invariant 0 <= i && (i > 0 ==> i <= numDesired)
      invariant result == Result([], Beyond(numDesired, actuals), result.indicesToStopAllButOne)
      invariant Ascending(result.indicesToStopAllButOne)
      invariant forall j :: j in result.indicesToStopAllButOne <==> 0 <= j < i && |Positions(actuals, j)| > 1
    {
      var count := NumAtIndex(actuals, i);
      if count > 1 {
        AppendAscending(result.indicesToStopAllButOne, i);
        result := result.(indicesToStopAllButOne := result.indicesToStopAllButOne + [i]);
      }
      i := i + 1;
    }
    EmptyMeansAsDesired(numDesired, actuals, result);
  }

  lemma EmptyMeansAsDesired(n: int, actuals: seq<ActualInstance>, result: Result)
    requires AllCovered(n, actuals) && result.indicesToStart == [] && result.guidsToStop == Beyond(n, actuals)
    requires forall i :: i in result.indicesToStopAllButOne <==> 0 <= i < n && |Positions(actuals, i)| > 1
    ensures result.Empty() <==> AsDesired(n, actuals)
  {
    forall i | 0 <= i < n
      ensures |Positions(actuals, i)| >= 1
    {
      assert Covered(actuals, i);
      var p :| 0 <= p < |actuals| && actuals[p].index == i;
      assert p in Positions(actuals, i);
    }
    if result.Empty() {
      forall i | 0 <= i < n
        ensures |Positions(actuals, i)| == 1
      {
        assert i !in result.indicesToStopAllButOne;
      }
      forall p | 0 <= p < |actuals|
        ensures actuals[p].index < n
      {
        BeyondHolds(n, actuals, actuals[p].guid);
      }
    } else if |result.guidsToStop| > 0 {
      BeyondHolds(n, actuals, result.guidsToStop[0]);
    } else {
      var i := result.indicesToStopAllButOne[0];
      assert i in result.indicesToStopAllButOne;
      assert |Positions(actuals, i)| != 1;
    }
  }
}
