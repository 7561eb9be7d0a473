/** The event router: EventHandlerImpl.handle drops events it has seen
    recently, then acts on the event by its type. */
module Routing {
  import opened Wrappers
  import opened Text
  import opened Order
  import opened UrlCodec
  import opened Events
  import opened Commands

  /* ------------------------------------------------- recent-event window */

  /** The window is trimmed once it holds more than this many ids. */
  const WindowLimit := 30

  /** The window after recording a new event id: the oldest id is dropped
      when the window is over the limit, and the id goes at the end. */
  function Admit(window: seq<int>, id: int): (w: seq<int>)
  {
    (if |window| > WindowLimit then window[1..] else window) + [id]
  }

  /** The window left by a stream of event ids handled from an empty one;
      an id already in the window leaves it as it is. */
  function Window(ids: seq<int>): seq<int>
  {
    if ids == [] then []
    else
      var w := Window(ids[..|ids| - 1]);
      var id := ids[|ids| - 1];
      if id in w then w else Admit(w, id)
  }

  /** A recorded id is in the window, and an id is never recorded twice. */
  lemma AdmitKeepsDistinct(window: seq<int>, id: int)
    requires Distinct(window) && id !in window
    ensures id in Admit(window, id)
    ensures Distinct(Admit(window, id))
  {
    var w := Admit(window, id);
    var kept := if |window| > WindowLimit then window[1..] else window;
    assert w == kept + [id];
    assert w[|w| - 1] == id;
    forall i, j | 0 <= i < j < |w|
      ensures w[i] != w[j]
    {
      if j < |w| - 1 {
        if |window| > WindowLimit {
          assert w[i] == window[i + 1] && w[j] == window[j + 1];
        } else {
          assert w[i] == window[i] && w[j] == window[j];
        }
      } else {
        assert w[i] in kept;
      }
    }
  }

  /** The window never holds more than one id over the limit, and never
      the same id twice. */
  lemma {:induction false} WindowBound(ids: seq<int>)
    ensures |Window(ids)| <= WindowLimit + 1
    ensures Distinct(Window(ids))
    decreases |ids|
  {
    if ids != [] {
      var w := Window(ids[..|ids| - 1]);
      WindowBound(ids[..|ids| - 1]);
      if ids[|ids| - 1] !in w {
        AdmitKeepsDistinct(w, ids[|ids| - 1]);
      }
    }
  }

  function Min(a: int, b: int): int { if a <= b then a else b }

  /** For a stream of distinct ids the window is exactly the last
      WindowLimit + 1 of them, oldest first. */
  lemma {:induction false} WindowOfDistinct(ids: seq<int>)
    requires Distinct(ids)
    ensures Window(ids) == ids[|ids| - Min(|ids|, WindowLimit + 1)..]
    decreases |ids|
  {
    if ids != [] {
      var init := ids[..|ids| - 1];
      var id := ids[|ids| - 1];
      assert ids == init + [id];
      assert Distinct(init) by {
        forall i, j | 0 <= i < j < |init|
          ensures init[i] != init[j]
        {
          assert init[i] == ids[i] && init[j] == ids[j];
        }
      }
      WindowOfDistinct(init);
      var k := |init| - Min(|init|, WindowLimit + 1);
      var w := Window(init);
      assert w == init[k..];
      assert id !in w by {
        forall i | 0 <= i < |w|
          ensures w[i] != id
        {
          assert w[i] == ids[k + i];
        }
      }
      if |w| > WindowLimit {
        assert |init| == WindowLimit + 1 + k;
        assert w[1..] == init[k + 1..];
        assert init[k + 1..] + [id] == ids[k + 1..];
      } else {
        assert k == 0 && |ids| <= WindowLimit + 1;
        assert init + [id] == ids[0..];
      }
    }
  }

  /** After WindowLimit + 1 further distinct events an id has left the
      window, so an event carrying it again is handled once more. */
  lemma WindowForgets(ids: seq<int>)
    requires Distinct(ids) && |ids| == WindowLimit + 2
    ensures ids[0] !in Window(ids)
    ensures ids[1] in Window(ids)
  {
    WindowOfDistinct(ids);
    var w := Window(ids);
    assert w == ids[1..];
    assert w[0] == ids[1];
    forall i | 0 <= i < |w|
      ensures w[i] != ids[0]
    {
      assert w[i] == ids[i + 1];
    }
  }

  /* ------------------------------------------------------------ actions */

  /** What happens to an addressed event (a mention or a reply) once
      runCommand has had its turn. */
  datatype Fallback =
    | Answered                     // runCommand answered it
    | NoExpression                 // nothing after the first word
    | Evaluate(expression: string) // the rest is evaluated and replied to
    | Crash                        // getContent().substring(2) throws
    | NotReached                   // runCommand threw first

  /** What handle does with one event. */
  datatype Action =
    | Duplicate                                  // seen recently: dropped
    | Dispatched(outcome: RunOutcome)            // a posted or edited message
    | Addressed(outcome: RunOutcome, fallback: Fallback)
    | Acknowledged(body: string)                 // POSTed to /messages/ack
    | Logged                                     // only printed
    | Ignored
  {
    /** handle ends with an exception: runCommand threw, or the fallback
        did. */
    predicate Throws()
    {
      (Dispatched? && outcome.Throws()) || (Addressed? && (outcome.Throws() || fallback.Crash?))
    }
  }

  predicate IsNotification(t: EventType) { t == GlobalNotification || t == UserNotification }

  /** The event types handle only prints. */
  predicate IsLoggedOnly(t: EventType)
  {
    t == DebugMessage || t == FileAdded || t == ModeratorFlag || t == UserSettingsChanged
    || t == Invitation || t == TimeBreak || t == UserSuspended || t == UserMerged
    || t == UserNameOrAvatarChanged
  }

  /** The body of the acknowledgement POST for a notification. */
  function AckBody(messageId: int): string
  {
    FormEncode([("id", IntString(messageId))])
  }

  /** The acknowledgement body on the wire is "id=" and the message id as
      written by Long.toString, so different messages get different bodies. */
  lemma AckBodyWire(messageId: int)
    ensures AckBody(messageId) == "id=" + IntString(messageId)
  {
    assert Encode("id") == "id" by {
      assert "id"[1..] == "d";
      assert "d"[1..] == [];
    }
    var s := IntString(messageId);
    if messageId < 0 {
      var digits := NatString(-messageId);
      EncodeWithConcat("-", digits, true);
      EncodeDigits(digits);
      assert "-"[1..] == [];
      assert EncodeWith("-", true) == "-";
    } else {
      EncodeDigits(s);
    }
  }

  lemma AckBodyInjective(a: int, b: int)
    requires AckBody(a) == AckBody(b)
    ensures a == b
  {
    AckBodyWire(a);
    AckBodyWire(b);
    assert IntString(a) == AckBody(a)[3..];
    assert IntString(b) == AckBody(b)[3..];
    IntStringInjective(a, b);
  }

  /** The fallback for an addressed event: once runCommand declines it,
      the content after its first two characters is split at the first
      space, and the trimmed remainder, when there is one and it is not
      empty, is evaluated. Missing content, or content shorter than two
      characters, makes substring(2) throw. When runCommand threw, the
      fallback is never reached. */
  function AddressedFallback(outcome: RunOutcome, content: Option<string>): (f: Fallback)
    ensures f.Answered? <==> outcome.Ran()
    ensures f.NotReached? <==> outcome.Throws()
    ensures f.Crash? <==> !outcome.Ran() && !outcome.Throws() && (content.None? || |content.value| < 2)
    ensures f.Evaluate? ==>
              f.expression != "" && Trim(f.expression) == f.expression
              && ' ' in content.value[2..]
    ensures f.NoExpression? ==> content.Some? && |content.value| >= 2
  {
    if outcome.Ran() then Answered
    else if outcome.Throws() then NotReached
    else if content.None? || |content.value| < 2 then Crash
    else
      var (_, rest) := SplitOnce(content.value[2..], ' ');
      var args := if rest.Some? then Trim(rest.value) else "";
      if args == "" then NoExpression
      else
        TrimIdempotent(rest.value);
        Evaluate(args)
  }

  /** A declined mention "xx" + word + " " + text evaluates the trimmed
      text, or nothing when that is blank. */
  lemma FallbackEvaluates(outcome: RunOutcome, prefix: string, word: string, text: string)
    requires !outcome.Ran() && !outcome.Throws() && |prefix| == 2 && ' ' !in word
    ensures AddressedFallback(outcome, Some(prefix + word + " " + text)) ==
              if Trim(text) == "" then NoExpression else Evaluate(Trim(text))
  {
    var c := prefix + word + " " + text;
    assert c[2..] == word + [' '] + text;
    SplitOnceAt(word, ' ', text);
    assert SplitOnce(c[2..], ' ') == (word, Some(text));
  }

  /** A declined mention with no space after its first word evaluates
      nothing. */
  lemma FallbackWithoutArguments(outcome: RunOutcome, prefix: string, word: string)
    requires !outcome.Ran() && !outcome.Throws() && |prefix| == 2 && ' ' !in word
    ensures AddressedFallback(outcome, Some(prefix + word)) == NoExpression
  {
    assert (prefix + word)[2..] == word;
  }

  /** The switch of handle on an event that was not seen recently, given
      the command handler's state. */
  function Dispatch(learned: map<string, string>, trigger: Option<string>, justWaved: bool, e: ChatEvent): (a: Action)
    ensures a.Dispatched? <==> IsMessageEvent(e.eventType)
    ensures a.Addressed? <==> IsAddressedEvent(e.eventType)
    ensures a.Acknowledged? <==> IsNotification(e.eventType)
    ensures a.Logged? <==> IsLoggedOnly(e.eventType)
    ensures a.Dispatched? || a.Addressed? ==>
              a.outcome == Run(learned, trigger, justWaved, e) && !a.outcome.Unsupported?
    ensures a.Addressed? ==> a.fallback == AddressedFallback(a.outcome, e.content)
    ensures a.Acknowledged? ==> a.body == "id=" + IntString(e.messageId)
    ensures a != Duplicate
  {
    if IsMessageEvent(e.eventType) then Dispatched(Run(learned, trigger, justWaved, e))
    else if IsAddressedEvent(e.eventType) then
      var o := Run(learned, trigger, justWaved, e);
      Addressed(o, AddressedFallback(o, e.content))
    else if IsNotification(e.eventType) then
      AckBodyWire(e.messageId);
      Acknowledged(AckBody(e.messageId))
    else if IsLoggedOnly(e.eventType) then Logged
    else Ignored
  }

  /** Every event type handle lists is one of the routed kinds; the rest
      are ignored. */
  lemma IgnoredTypes(learned: map<string, string>, trigger: Option<string>, justWaved: bool, e: ChatEvent)
    requires e.eventType in {UserEntered, UserLeft, RoomNameChanged, MessageStarred, MessageFlagged,
                             MessageDeleted, AccessLevelChanged, MessageMovedOut, MessageMovedIn,
                             FeedTicker, OtherEvent}
    ensures Dispatch(learned, trigger, justWaved, e) == Ignored
  {
  }

  /** The command handler's wave latch after the event was dispatched. */
  function WavedAfter(justWaved: bool, a: Action): bool
  {
    justWaved || ((a.Dispatched? || a.Addressed?) && a.outcome.Waved?)
  }

  /** handle on one event: the window, the wave latch and the action
      afterwards. */
  function Step(window: seq<int>, learned: map<string, string>, trigger: Option<string>, justWaved: bool, e: ChatEvent)
    : (seq<int>, bool, Action)
  {
    if e.id in window then (window, justWaved, Duplicate)
    else
      var a := Dispatch(learned, trigger, justWaved, e);
      (Admit(window, e.id), WavedAfter(justWaved, a), a)
  }

  /** The last action threw: nothing in the poll thread catches it, so the
      loop ends there. */
  predicate Halted(actions: seq<Action>)
  {
    actions != [] && actions[|actions| - 1].Throws()
  }

  /** handle on each event of a list in turn, as the poll loop calls it.
      An exception out of handle ends the loop, so the events after it are
      never handled. */
  function Steps(window: seq<int>, learned: map<string, string>, trigger: Option<string>, justWaved: bool, events: seq<ChatEvent>)
    : (r: (seq<int>, bool, seq<Action>))
    ensures |r.2| <= |events|
    ensures |r.2| < |events| ==> Halted(r.2)
    ensures forall i :: 0 <= i < |r.2| - 1 ==> !r.2[i].Throws()
  {
    if events == [] then (window, justWaved, [])
    else
      var p := Steps(window, learned, trigger, justWaved, events[..|events| - 1]);
      if Halted(p.2) then p
      else
        var s := Step(p.0, learned, trigger, p.1, events[|events| - 1]);
        (s.0, s.1, p.2 + [s.2])
  }

  /** Once an event has thrown, the rest of the list changes nothing. */
  lemma {:induction false} StepsAfterHalt(window: seq<int>, learned: map<string, string>, trigger: Option<string>,
                                          justWaved: bool, events: seq<ChatEvent>, i: int)
    requires 0 <= i <= |events|
    requires Halted(Steps(window, learned, trigger, justWaved, events[..i]).2)
    ensures Steps(window, learned, trigger, justWaved, events) == Steps(window, learned, trigger, justWaved, events[..i])
    decreases |events|
  {
    if |events| == i {
      assert events[..i] == events;
    } else {
      var init := events[..|events| - 1];
      assert init[..i] == events[..i];
      StepsAfterHalt(window, learned, trigger, justWaved, init, i);
    }
  }

  function Ids(events: seq<ChatEvent>): (ids: seq<int>)
    ensures |ids| == |events|
    ensures forall i :: 0 <= i < |events| ==> ids[i] == events[i].id
  {
    seq(|events|, i requires 0 <= i < |events| => events[i].id)
  }

  /** Handling a list of events from an empty window leaves the window of
      the ids handled: a repeated id is handled once while it is in the
      window, and the ids after an exception are never seen. */
  lemma {:induction false} StepsWindow(learned: map<string, string>, trigger: Option<string>, justWaved: bool, events: seq<ChatEvent>)
    ensures var r := Steps([], learned, trigger, justWaved, events);
      r.0 == Window(Ids(events[..|r.2|]))
    decreases |events|
  {
    if events != [] {
      var init := events[..|events| - 1];
      StepsWindow(learned, trigger, justWaved, init);
      var p := Steps([], learned, trigger, justWaved, init);
      if Halted(p.2) {
        assert events[..|p.2|] == init[..|p.2|];
      } else {
        assert init[..|p.2|] == init;
        assert events[..|p.2| + 1] == events;
        assert Ids(events)[..|events| - 1] == Ids(init);
      }
    }
  }

  /** An event whose id was handled in the same list, with fewer than
      WindowLimit + 1 distinct ids after it, is a duplicate, provided the
      loop is still running when it comes round again. */
  lemma RepeatIsDuplicate(learned: map<string, string>, trigger: Option<string>, justWaved: bool, e: ChatEvent, others: seq<ChatEvent>)
    requires |others| <= WindowLimit && Distinct(Ids([e] + others))
    requires !Halted(Steps([], learned, trigger, justWaved, [e] + others).2)
    ensures Steps([], learned, trigger, justWaved, [e] + others + [e]).2[|others| + 1] == Duplicate
  {
    var events := [e] + others;
    var ids := Ids(events);
    StepsWindow(learned, trigger, justWaved, events);
    assert events[..|events|] == events;
    WindowOfDistinct(ids);
    assert ids[|ids| - Min(|ids|, WindowLimit + 1)..] == ids;
    var before := Steps([], learned, trigger, justWaved, events);
    assert before.0 == ids && ids[0] == e.id;
    var all := events + [e];
    assert all[..|all| - 1] == events && all[|all| - 1] == e;
    assert Steps([], learned, trigger, justWaved, all).2 == before.2 + [Duplicate];
  }

  /** A declined mention too short for substring(2) ends the loop: the
      events after it are never handled. */
  lemma CrashEndsLoop(learned: map<string, string>, trigger: Option<string>, justWaved: bool,
                      e: ChatEvent, rest: seq<ChatEvent>)
    requires IsAddressedEvent(e.eventType) && e.content.Some? && |e.content.value| < 2
    requires !Run(learned, trigger, justWaved, e).Ran()
    ensures Dispatch(learned, trigger, justWaved, e).Throws()
    ensures Steps([], learned, trigger, justWaved, [e] + rest).2 == [Dispatch(learned, trigger, justWaved, e)]
  {
    var events := [e] + rest;
    assert events[..0] == [] && events[0] == e;
    StepsNext([], learned, trigger, justWaved, events, 0);
    StepsAfterHalt([], learned, trigger, justWaved, events, 1);
  }

  /* ------------------------------------------------------------- handle */

  /** Steps over one more event of a list while the loop runs, unfolded. */
  lemma StepsNext(window: seq<int>, learned: map<string, string>, trigger: Option<string>, justWaved: bool,
                  events: seq<ChatEvent>, i: int)
    requires 0 <= i < |events|
    ensures var p := Steps(window, learned, trigger, justWaved, events[..i]);
      var s := Step(p.0, learned, trigger, p.1, events[i]);
      !Halted(p.2) ==> Steps(window, learned, trigger, justWaved, events[..i + 1]) == (s.0, s.1, p.2 + [s.2])
  {
    assert events[..i + 1][..i] == events[..i];
  }

  /** EventHandlerImpl: the command handler it extends and the window of
      recently handled event ids. */
  class EventHandlerImpl {
    const handler: EventHandler
    var recent: seq<int>

    ghost predicate Valid()
      reads this, handler
    {
      |recent| <= WindowLimit + 1 && Distinct(recent) && handler.Valid()
    }

    /** EventHandlerImpl declares no constructor, so its command handler
      is built without a trigger. */
    constructor()
      ensures Valid() && recent == []
      ensures fresh(handler)
      ensures handler.learned == map[] && handler.trigger == None && !handler.justWaved
    {
      handler := new EventHandler.Untriggered();
      recent := [];
    }

    /** handle: an event already in the window is dropped and changes
      nothing; any other is recorded in the window and dispatched. */
    method Handle(event: ChatEvent) returns (action: Action)
      requires Valid()
      modifies this, handler
      ensures Valid()
      ensures (recent, handler.justWaved, action) ==
                Step(old(recent), old(handler.learned), old(handler.trigger), old(handler.justWaved), event)
      ensures event.id in recent
      ensures handler.learned == old(handler.learned) && handler.trigger == old(handler.trigger)
    {
      if event.id in recent {
        return Duplicate;
      }
      AdmitKeepsDistinct(recent, event.id);
      if |recent| > WindowLimit {
        recent := recent[1..];
      }
      recent := recent + [event.id];
      if IsMessageEvent(event.eventType) {
        var outcome := handler.RunCommand(event);
        action := Dispatched(outcome);
      } else if IsAddressedEvent(event.eventType) {
        var outcome := handler.RunCommand(event);
        action := Addressed(outcome, AddressedFallback(outcome, event.content));
      } else if IsNotification(event.eventType) {
        action := Acknowledged(AckBody(event.messageId));
      } else if IsLoggedOnly(event.eventType) {
        action := Logged;
      } else {
        action := Ignored;
      }
    }
  }
}
