/** The watch loop that resumes by index, and the filter loop behind it. */
module Watch {
  import opened Wrappers

  /** One event under the watched key, with the store index of the change. */
  datatype Event = Event(modifiedIndex: nat, payload: string)

  /** The events under the key, in the order the store makes them. */
  ghost predicate IsLog(log: seq<Event>) {
    && (forall i | 0 <= i < |log| :: log[i].modifiedIndex > 0)
    && (forall i, j | 0 <= i < j < |log| :: log[i].modifiedIndex < log[j].modifiedIndex)
  }

  /** What the client's Watch returns: an event (by its position in the log), that the
      index is no longer in the store's history, that the user stopped it, or an error. */
  datatype Reply = Found(pos: nat) | IndexCleared | Stopped | Failed

  datatype Outcome = StillWatching | WatchStopped | WatchFailed

  /** The loop's index variable, and the position after the last event delivered. */
  datatype Cursor = Cursor(index: nat, next: nat)

  function Advance(log: seq<Event>, cursor: Cursor, reply: Reply): Cursor {
    match reply
    case Found(pos) => if pos < |log| then Cursor(log[pos].modifiedIndex + 1, pos + 1) else cursor
    case IndexCleared => cursor.(index := 0)
    case _ => cursor
  }

  function CursorAfter(log: seq<Event>, replies: seq<Reply>): Cursor {
    if replies == [] then Cursor(0, 0)
    else Advance(log, CursorAfter(log, replies[..|replies| - 1]), replies[|replies| - 1])
  }

  /** A watch from an index returns the first event at or after it; a watch from index 0
      returns one that has not happened yet, hence none that was delivered. */
  ghost predicate Answers(log: seq<Event>, cursor: Cursor, reply: Reply) {
    reply.Found? ==>
      && reply.pos < |log|
      && if cursor.index == 0 then reply.pos >= cursor.next
         else log[reply.pos].modifiedIndex >= cursor.index
              && forall q | 0 <= q < reply.pos :: log[q].modifiedIndex < cursor.index
  }

  /** The replies of a well-behaved store, ending with the one that ends the watch, if any. */
  ghost predicate Served(log: seq<Event>, replies: seq<Reply>) {
    && (forall i | 0 <= i < |replies| :: Answers(log, CursorAfter(log, replies[..i]), replies[i]))
    && (forall i | 0 <= i < |replies| - 1 :: replies[i].Found? || replies[i].IndexCleared?)
  }

  /** The positions delivered, in order of delivery. */
  function Positions(replies: seq<Reply>): seq<nat> {
    if replies == [] then []
    else
      var before := Positions(replies[..|replies| - 1]);
      var last := replies[|replies| - 1];
      if last.Found? then before + [last.pos] else before
  }

  /** Whether an index-cleared reset lies between the last two deliveries or after the last. */
  function ClearedSinceLast(replies: seq<Reply>): bool {
    replies != [] &&
    match replies[|replies| - 1]
    case Found(_) => false
    case IndexCleared => true
    case _ => ClearedSinceLast(replies[..|replies| - 1])
  }

  /** Where the next delivery will be in the log, as far as the loop can tell. */
  ghost predicate CursorInv(log: seq<Event>, replies: seq<Reply>) {
    var cursor, positions := CursorAfter(log, replies), Positions(replies);
    && cursor.next == (if positions == [] then 0 else positions[|positions| - 1] + 1)
    && cursor.next <= |log|
    && (cursor.index != 0 ==> positions != [] && cursor.index == log[positions[|positions| - 1]].modifiedIndex + 1)
    && (positions != [] && !ClearedSinceLast(replies) ==> cursor.index != 0)
  }

  lemma {:induction false} ServedPrefix(log: seq<Event>, replies: seq<Reply>)
    requires Served(log, replies) && replies != []
    ensures Served(log, replies[..|replies| - 1])
  {
    var shorter := replies[..|replies| - 1];
    forall i | 0 <= i < |shorter| ensures Answers(log, CursorAfter(log, shorter[..i]), shorter[i]) {
      assert shorter[..i] == replies[..i];
    }
  }

  lemma {:induction false} CursorFollows(log: seq<Event>, replies: seq<Reply>)
    requires IsLog(log) && Served(log, replies)
    ensures CursorInv(log, replies)
    ensures forall k | 0 <= k < |Positions(replies)| :: Positions(replies)[k] < |log|
    ensures forall k | 0 < k < |Positions(replies)| :: Positions(replies)[k - 1] < Positions(replies)[k]
  {
    if replies != [] {
      var shorter, last := replies[..|replies| - 1], replies[|replies| - 1];
      ServedPrefix(log, replies);
      CursorFollows(log, shorter);
      assert Answers(log, CursorAfter(log, shorter), last);
    }
  }

  /** Whatever is lost from the store's history: events are delivered in strictly
      increasing order of their index, none twice, and between two deliveries without a
      reset in between no event under the key is left out. */
  lemma DeliveredInOrder(log: seq<Event>, replies: seq<Reply>, reply: Reply)
    requires IsLog(log) && Served(log, replies + [reply]) && reply.Found? && Positions(replies) != []
    ensures var last := Positions(replies)[|Positions(replies)| - 1];
            && last < reply.pos < |log|
            && log[last].modifiedIndex < log[reply.pos].modifiedIndex
            && (!ClearedSinceLast(replies) ==> reply.pos == last + 1)
  {
    var all := replies + [reply];
    assert all[..|replies|] == replies && all[|replies|] == reply;
    assert Answers(log, CursorAfter(log, all[..|replies|]), all[|replies|]);
    ServedPrefix(log, all);
    CursorFollows(log, replies);
    ResumesNext(log, CursorAfter(log, replies), Positions(replies)[|Positions(replies)| - 1], reply);
  }

  /** The watch that resumes one past an index finds the very next event. */
  lemma ResumesNext(log: seq<Event>, cursor: Cursor, last: nat, reply: Reply)
    requires IsLog(log) && reply.Found? && Answers(log, cursor, reply) && last < |log| && cursor.next == last + 1
    requires cursor.index != 0 ==> cursor.index == log[last].modifiedIndex + 1
    ensures last < reply.pos < |log|
    ensures cursor.index != 0 ==> reply.pos == last + 1
  {
    if cursor.index != 0 && last + 1 < |log| {
      assert log[last].modifiedIndex < log[last + 1].modifiedIndex;
    }
  }

  /** A stop by the user is no error. */
  predicate Ends(reply: Reply, outcome: Outcome) {
    if reply == Stopped then outcome == WatchStopped
    else if reply == Failed then outcome == WatchFailed
    else outcome == StillWatching
  }

  /** The event at each position, in order. */
  ghost predicate Delivers(log: seq<Event>, positions: seq<nat>, events: seq<Event>) {
    |events| == |positions| && forall k | 0 <= k < |events| :: positions[k] < |log| && events[k] == log[positions[k]]
  }

  ghost predicate Increasing(events: seq<Event>) {
    forall k | 0 < k < |events| :: events[k - 1].modifiedIndex < events[k].modifiedIndex
  }

  lemma DeliveriesIncrease(log: seq<Event>, replies: seq<Reply>, events: seq<Event>)
    requires IsLog(log) && Served(log, replies) && Delivers(log, Positions(replies), events)
    ensures Increasing(events)
  {
    CursorFollows(log, replies);
  }

  /** A stop or a failure ends the watch. */
  lemma EndsThere(log: seq<Event>, replies: seq<Reply>, i: nat)
    requires Served(log, replies) && i < |replies| && (replies[i] == Stopped || replies[i] == Failed)
    ensures i == |replies| - 1 && replies[..i + 1] == replies
  {
  }

  /** One more delivery. */
  lemma DeliverOneMore(log: seq<Event>, positions: seq<nat>, events: seq<Event>, pos: nat)
    requires Delivers(log, positions, events) && pos < |log|
    ensures Delivers(log, positions + [pos], events + [log[pos]])
  {
  }

  lemma CursorStep(log: seq<Event>, replies: seq<Reply>, i: nat)
    requires i < |replies|
    ensures CursorAfter(log, replies[..i + 1]) == Advance(log, CursorAfter(log, replies[..i]), replies[i])
    ensures Positions(replies[..i + 1])
         == if replies[i].Found? then Positions(replies[..i]) + [replies[i].pos] else Positions(replies[..i])
  {
    assert replies[..i + 1][..i] == replies[..i];
  }

  /** What one reply does to the loop's index and to what has been delivered. */
  lemma DispatchStep(log: seq<Event>, replies: seq<Reply>, i: nat, events: seq<Event>)
    requires Served(log, replies) && i < |replies| && Delivers(log, Positions(replies[..i]), events)
    ensures replies[i].Found? ==>
              && replies[i].pos < |log|
              && CursorAfter(log, replies[..i + 1]).index == log[replies[i].pos].modifiedIndex + 1
              && Delivers(log, Positions(replies[..i + 1]), events + [log[replies[i].pos]])
    ensures !replies[i].Found? ==>
              && CursorAfter(log, replies[..i + 1]).index ==
                 (if replies[i] == IndexCleared then 0 else CursorAfter(log, replies[..i]).index)
              && Delivers(log, Positions(replies[..i + 1]), events)
  {
    CursorStep(log, replies, i);
    assert Answers(log, CursorAfter(log, replies[..i]), replies[i]);
    if replies[i].Found? {
      DeliverOneMore(log, Positions(replies[..i]), events, replies[i].pos);
    }
  }

  /** dispatchWatchEvents, against the replies it gets. */
  method DispatchWatchEvents(log: seq<Event>, replies: seq<Reply>) returns (events: seq<Event>, outcome: Outcome)
    requires IsLog(log) && Served(log, replies)
    ensures Delivers(log, Positions(replies), events)
    ensures Increasing(events)
    ensures if replies == [] then outcome == StillWatching else Ends(replies[|replies| - 1], outcome)
  {
    events, outcome := [], StillWatching;
    var index: nat := 0;
    for i := 0 to |replies|
      invariant index == CursorAfter(log, replies[..i]).index
      invariant outcome == StillWatching && (i > 0 ==> Ends(replies[i - 1], StillWatching))
      invariant Delivers(log, Positions(replies[..i]), events)
    {
      DispatchStep(log, replies, i, events);
      match replies[i]
      case IndexCleared =>
        index := 0;
      case Stopped =>
        EndsThere(log, replies, i);
        DeliveriesIncrease(log, replies, events);
        return events, WatchStopped;
      case Failed =>
        EndsThere(log, replies, i);
        DeliveriesIncrease(log, replies, events);
        return events, WatchFailed;
      case Found(pos) =>
        events := events + [log[pos]];
        index := log[pos].modifiedIndex + 1;
    }
    assert replies[..|replies|] == replies;
    DeliveriesIncrease(log, replies, events);
  }

  // ---------------------------------------------------------------- WatchWithFilter

  /** Which of its channels the select of the forwarding loop takes. */
  datatype Choice = StopOuter | NextEvent | NextError

  function Filtered<T>(events: seq<Event>, filter: Event -> Option<T>): seq<T> {
    if events == [] then []
    else
      var before := Filtered(events[..|events| - 1], filter);
      match filter(events[|events| - 1])
      case Some(t) => before + [t]
      case None => before
  }

  /** `out` is what the filter makes of the events at the positions kept, which are those of
      all the events that pass, in order. */
  ghost predicate IsImage<T>(events: seq<Event>, filter: Event -> Option<T>, out: seq<T>, kept: seq<nat>) {
    && |kept| == |out|
    && (forall i | 0 <= i < |kept| :: kept[i] < |events| && filter(events[kept[i]]) == Some(out[i]))
    && (forall i, j | 0 <= i < j < |kept| :: kept[i] < kept[j])
    && forall p: nat | p < |events| && filter(events[p]).Some? :: p in kept
  }

  lemma ImageGrows<T>(events: seq<Event>, filter: Event -> Option<T>, out: seq<T>, kept: seq<nat>, e: Event)
    requires IsImage(events, filter, out, kept)
    ensures if filter(e).Some? then IsImage(events + [e], filter, out + [filter(e).value], kept + [|events|])
            else IsImage(events + [e], filter, out, kept)
  {
    var kept' := if filter(e).Some? then kept + [|events|] else kept;
    forall p: nat | p <= |events| && filter((events + [e])[p]).Some?
      ensures p in kept'
    {
      if p == |events| {
        assert kept'[|kept|] == p;
      } else {
        assert p in kept;
      }
    }
  }

  lemma {:induction false} FilteredIsImage<T>(events: seq<Event>, filter: Event -> Option<T>) returns (kept: seq<nat>)
    ensures IsImage(events, filter, Filtered(events, filter), kept)
  {
    kept := [];
    if events != [] {
      var shorter, last := events[..|events| - 1], events[|events| - 1];
      assert events == shorter + [last];
      var before := FilteredIsImage(shorter, filter);
      ImageGrows(shorter, filter, Filtered(shorter, filter), before, last);
      kept := if filter(last).Some? then before + [|shorter|] else before;
    }
  }

  lemma HasImage<T>(events: seq<Event>, filter: Event -> Option<T>)
    ensures exists kept :: IsImage(events, filter, Filtered(events, filter), kept)
  {
    var kept := FilteredIsImage(events, filter);
  }

  /** The forwarding loop: whichever channels it takes, and whenever it is stopped, it
      has sent the filtered image, in order, of a prefix of the events. */
  method Forward<T>(events: seq<Event>, choices: seq<Choice>, filter: Event -> Option<T>)
    returns (out: seq<T>, taken: nat)
    ensures taken <= |events| && out == Filtered(events[..taken], filter)
    ensures exists kept :: IsImage(events[..taken], filter, out, kept)
    ensures (forall c | c in choices :: c == NextEvent) ==>
        taken == if |choices| <= |events| then |choices| else |events|
  {
    out, taken := [], 0;
    HasImage(events[..0], filter);
    for i := 0 to |choices|
      invariant taken <= |events| && out == Filtered(events[..taken], filter)
      invariant exists kept :: IsImage(events[..taken], filter, out, kept)
      invariant taken == i
    {
      assert choices[i] in choices;
      match choices[i]
      case StopOuter => return;
      case NextError => return;
      case NextEvent =>
        if taken == |events| {
          return;
        }
        assert events[..taken + 1][..taken] == events[..taken];
        HasImage(events[..taken + 1], filter);
        match filter(events[taken])
        case Some(t) =>
          out := out + [t];
          taken := taken + 1;
        case None =>
          taken := taken + 1;
    }
  }
}
