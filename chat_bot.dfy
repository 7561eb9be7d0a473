/** The site registry of ChatBot: one chat session per upper-cased site
    name, the room operations addressed by site, and the poll cycle that
    gathers every site's events and hands them to the event router. */
module Bot {
  import opened Wrappers
  import opened Text
  import opened Order
  import opened Events
  import opened Sessions
  import opened Routing

  datatype BotError =
    | UnknownSite(name: string)                  // ChatSite.valueOf throws
    | AuthFailed(name: string, cause: AuthError) // the ChatIO constructor throws
    | NoIO(name: string)                         // no session for the site
    | NotInRoom(name: string, room: int)

  /** A message handed to the site's session for sending. */
  datatype Outgoing = Outgoing(site: string, room: int, text: string)

  /* ------------------------------------------------------- registration */

  /** The keys of the registry after the constructor's loop over the
      site names, and the error that ended it, if any. login gives, per
      site, whether the login handshake succeeds and the fkey scraped. */
  function Registration(keys: set<string>, sites: seq<string>, known: set<string>,
                        login: string -> (bool, Option<string>)): (r: (set<string>, Option<BotError>))
    decreases |sites|
  {
    if sites == [] then (keys, None)
    else
      var name := Upper(sites[0]);
      if name !in known then (keys, Some(UnknownSite(name)))
      else if name in keys then Registration(keys, sites[1..], known, login)
      else
        var (ok, fkey) := login(name);
        if !ok then (keys, Some(AuthFailed(name, LoginFailed)))
        else if fkey.None? then (keys, Some(AuthFailed(name, FkeyNotFound)))
        else Registration(keys + {name}, sites[1..], known, login)
  }

  /** One site name of the constructor's loop. */
  lemma RegistrationStep(keys: set<string>, sites: seq<string>, i: int, known: set<string>,
                         login: string -> (bool, Option<string>))
    requires 0 <= i < |sites|
    ensures var name := Upper(sites[i]);
      var r := Registration(keys, sites[i..], known, login);
      var (ok, fkey) := login(name);
      && (name !in known ==> r == (keys, Some(UnknownSite(name))))
      && (name in known && name in keys ==> r == Registration(keys, sites[i + 1..], known, login))
      && (name in known && name !in keys && !ok ==> r == (keys, Some(AuthFailed(name, LoginFailed))))
      && (name in known && name !in keys && ok && fkey.None? ==> r == (keys, Some(AuthFailed(name, FkeyNotFound))))
      && (name in known && name !in keys && ok && fkey.Some? ==> r == Registration(keys + {name}, sites[i + 1..], known, login))
  {
    assert sites[i..][0] == sites[i] && sites[i..][1..] == sites[i + 1..];
  }

  function UpperAll(sites: seq<string>): set<string>
  {
    set s | s in sites :: Upper(s)
  }

  /** Registration only adds known, upper-cased site names, and when it
      ends without error every site given is registered. */
  lemma {:induction false} RegistrationBounds(keys: set<string>, sites: seq<string>, known: set<string>,
                                              login: string -> (bool, Option<string>))
    ensures var r := Registration(keys, sites, known, login);
      keys <= r.0 && r.0 <= keys + (UpperAll(sites) * known)
      && (r.1.None? ==> r.0 == keys + UpperAll(sites))
    decreases |sites|
  {
    if sites != [] {
      var name := Upper(sites[0]);
      assert UpperAll(sites) == {name} + UpperAll(sites[1..]) by {
        assert forall s :: s in sites <==> s == sites[0] || s in sites[1..];
      }
      if name in known {
        if name in keys {
          RegistrationBounds(keys, sites[1..], known, login);
        } else if login(name).0 && login(name).1.Some? {
          RegistrationBounds(keys + {name}, sites[1..], known, login);
        }
      }
    }
  }

  /** A site that is already registered is not logged into again: naming
      only registered sites registers nothing and cannot fail, whatever the
      handshakes would do. */
  lemma {:induction false} RegisteredSitesSkipped(keys: set<string>, sites: seq<string>, known: set<string>,
                                                  login: string -> (bool, Option<string>))
    requires forall s :: s in sites ==> Upper(s) in keys && Upper(s) in known
    ensures Registration(keys, sites, known, login) == (keys, None)
    decreases |sites|
  {
    if sites != [] {
      assert sites[0] in sites;
      assert forall s :: s in sites[1..] ==> s in sites;
      RegisteredSitesSkipped(keys, sites[1..], known, login);
    }
  }

  /* ---------------------------------------------------------- poll cycle */

  /** Every site's poll in the order the registry is walked: the events
      are appended site after site, and a site that fails ends the cycle,
      leaving the sites after it unpolled. */
  function PollCycle(states: map<string, PollState>, order: seq<string>,
                     post: string -> string -> Option<string>,
                     extract: string -> string -> Option<seq<ChatEvent>>)
    : (r: (map<string, PollState>, Result<seq<ChatEvent>, PollError>))
    requires forall k :: k in order ==> k in states
    ensures r.0.Keys == states.Keys
  {
    if order == [] then (states, Ok([]))
    else
      var (before, events) := PollCycle(states, order[..|order| - 1], post, extract);
      if events.Err? then (before, events)
      else
        var k := order[|order| - 1];
        assert k in order;
        var (st, r) := Poll(before[k], post(k), extract(k));
        (before[k := st], if r.Err? then Err(r.error) else Ok(events.value + r.value))
  }

  /** One more site at the end of the walk. */
  lemma PollCycleStep(states: map<string, PollState>, order: seq<string>, i: int,
                      post: string -> string -> Option<string>,
                      extract: string -> string -> Option<seq<ChatEvent>>)
    requires forall k :: k in order ==> k in states
    requires 0 <= i < |order|
    ensures forall k :: k in order[..i] ==> k in states
    ensures var prev := PollCycle(states, order[..i], post, extract);
      var k := order[i];
      PollCycle(states, order[..i + 1], post, extract) ==
        if prev.1.Err? then prev
        else
          var (st, r) := Poll(prev.0[k], post(k), extract(k));
          (prev.0[k := st], if r.Err? then Err(r.error) else Ok(prev.1.value + r.value))
  {
    assert order[..i + 1][..i] == order[..i];
    assert forall k :: k in order[..i] ==> k in order;
  }

  /** The last site of the walk, unfolded once. */
  lemma PollCycleLast(states: map<string, PollState>, order: seq<string>,
                      post: string -> string -> Option<string>,
                      extract: string -> string -> Option<seq<ChatEvent>>)
    requires forall k :: k in order ==> k in states
    requires order != []
    ensures forall k :: k in order[..|order| - 1] ==> k in states
    ensures var prev := PollCycle(states, order[..|order| - 1], post, extract);
      var r := PollCycle(states, order, post, extract);
      var k := order[|order| - 1];
      var p := Poll(prev.0[k], post(k), extract(k));
      (prev.1.Err? ==> r == prev)
      && (prev.1.Ok? ==> r.0 == prev.0[k := p.0] && (r.1.Err? <==> p.1.Err?))
  {
    assert forall k :: k in order[..|order| - 1] ==> k in order;
  }

  /** A cycle fails exactly when one of the sites has no poll body yet
      (no room was ever joined there); the sites it does not walk keep
      their state. */
  lemma {:induction false} PollCycleFails(states: map<string, PollState>, order: seq<string>,
                                          post: string -> string -> Option<string>,
                                          extract: string -> string -> Option<seq<ChatEvent>>)
    requires forall k :: k in order ==> k in states
    ensures var r := PollCycle(states, order, post, extract);
      (r.1.Err? <==> exists i :: 0 <= i < |order| && states[order[i]].cache.None?)
      && (forall k :: k in states && k !in order ==> r.0[k] == states[k])
    decreases |order|
  {
    PollCycleErr(states, order, post, extract);
    PollCycleUntouched(states, order, post, extract);
  }

  lemma {:induction false} PollCycleErr(states: map<string, PollState>, order: seq<string>,
                                        post: string -> string -> Option<string>,
                                        extract: string -> string -> Option<seq<ChatEvent>>)
    requires forall k :: k in order ==> k in states
    ensures PollCycle(states, order, post, extract).1.Err? <==>
      exists i :: 0 <= i < |order| && states[order[i]].cache.None?
    decreases |order|
  {
    if order != [] {
      var n := |order| - 1;
      var init, k := order[..n], order[n];
      PollCycleLast(states, order, post, extract);
      PollCycleErr(states, init, post, extract);
      UnjoinedSplit(states, order);
      var prev := PollCycle(states, init, post, extract);
      if prev.1.Ok? {
        PollKeepsCache(states, init, post, extract, k);
      }
    }
  }

  /** Some site of the walk has no poll body: one of the earlier ones, or
      the last. */
  lemma UnjoinedSplit(states: map<string, PollState>, order: seq<string>)
    requires forall k :: k in order ==> k in states
    requires order != []
    ensures var n := |order| - 1;
      (exists i :: 0 <= i < |order| && states[order[i]].cache.None?) <==>
      ((exists i :: 0 <= i < n && states[order[..n][i]].cache.None?) || states[order[n]].cache.None?)
  {
    var n := |order| - 1;
    if exists i :: 0 <= i < |order| && states[order[i]].cache.None? {
      var i :| 0 <= i < |order| && states[order[i]].cache.None?;
      if i < n {
        assert order[..n][i] == order[i];
      }
    }
    if exists i :: 0 <= i < n && states[order[..n][i]].cache.None? {
      var i :| 0 <= i < n && states[order[..n][i]].cache.None?;
      assert order[..n][i] == order[i];
    }
  }

  lemma {:induction false} PollCycleUntouched(states: map<string, PollState>, order: seq<string>,
                                              post: string -> string -> Option<string>,
                                              extract: string -> string -> Option<seq<ChatEvent>>)
    requires forall k :: k in order ==> k in states
    ensures forall k :: k in states && k !in order ==> PollCycle(states, order, post, extract).0[k] == states[k]
    decreases |order|
  {
    if order != [] {
      var n := |order| - 1;
      var init := order[..n];
      PollCycleLast(states, order, post, extract);
      PollCycleUntouched(states, init, post, extract);
      forall j | j in init ensures j in order {
        var i :| 0 <= i < |init| && init[i] == j;
        assert order[i] == j;
      }
      forall k | k in states && k !in order
        ensures PollCycle(states, order, post, extract).0[k] == states[k]
      {
        assert k != order[n];
      }
    }
  }

  /** A cycle changes no site's cached poll body. */
  lemma {:induction false} PollKeepsCache(states: map<string, PollState>, order: seq<string>,
                                          post: string -> string -> Option<string>,
                                          extract: string -> string -> Option<seq<ChatEvent>>, k: string)
    requires forall j :: j in order ==> j in states
    requires k in states
    ensures PollCycle(states, order, post, extract).0[k].cache == states[k].cache
    decreases |order|
  {
    if order != [] {
      var init := order[..|order| - 1];
      assert forall j :: j in init ==> j in order;
      PollKeepsCache(states, init, post, extract, k);
      var before := PollCycle(states, init, post, extract);
      var last := order[|order| - 1];
      if before.1.Ok? && last == k {
        assert last in order;
      }
    }
  }

  /** The first cycle after the sites were joined yields no events: each
      site's first poll only fixes its cursor. */
  lemma {:induction false} FirstCycleSilent(states: map<string, PollState>, order: seq<string>,
                                            post: string -> string -> Option<string>,
                                            extract: string -> string -> Option<seq<ChatEvent>>)
    requires forall k :: k in order ==> k in states && states[k].firstTime
    requires Distinct(order)
    ensures var r := PollCycle(states, order, post, extract);
      r.1.Ok? ==> r.1.value == []
    decreases |order|
  {
    if order != [] {
      var init := order[..|order| - 1];
      var k := order[|order| - 1];
      assert k in order;
      assert forall j :: j in init ==> j in order && j != k;
      assert Distinct(init);
      FirstCycleSilentStep(states, init, post, extract, k);
      FirstCycleSilent(states, init, post, extract);
    }
  }

  lemma FirstCycleSilentStep(states: map<string, PollState>, init: seq<string>,
                             post: string -> string -> Option<string>,
                             extract: string -> string -> Option<seq<ChatEvent>>, k: string)
    requires forall j :: j in init ==> j in states
    requires k in states && k !in init
    ensures PollCycle(states, init, post, extract).0[k] == states[k]
  {
    PollCycleFails(states, init, post, extract);
  }

  /* ------------------------------------------------------------ ChatBot */

  /** ChatBot: the registry of sessions by upper-cased site name and the
      event router the poll loop feeds. */
  class ChatBot {
    var chatio: map<string, ChatIO>
    const eventhandler: EventHandlerImpl

    /** Every key is an upper-cased site name naming its own session, and
      every session is consistent, with its poll body current. */
    ghost predicate Valid()
      reads this, eventhandler, eventhandler.handler, chatio.Values
    {
      eventhandler.Valid()
      && forall k :: k in chatio ==>
           Upper(k) == k && chatio[k].site.name == k && chatio[k].Valid() && chatio[k].CacheCurrent()
    }

    /** The poll state of every registered site. */
    ghost function States(): (m: map<string, PollState>)
      reads this, chatio.Values
      ensures m.Keys == chatio.Keys
    {
      map k | k in chatio :: chatio[k].State()
    }

    constructor(eventhandler: EventHandlerImpl)
      requires eventhandler.Valid()
      ensures Valid() && chatio == map[] && this.eventhandler == eventhandler
    {
      chatio := map[];
      this.eventhandler := eventhandler;
    }

    /** The constructor's loop: each site name is upper-cased and checked
      against the ChatSite names, and a session is opened only for a name
      not registered yet. */
    method Register(sites: seq<string>, known: set<string>, login: string -> (bool, Option<string>))
      returns (err: Option<BotError>)
      requires Valid()
      modifies this
      ensures Valid()
      ensures (chatio.Keys, err) == Registration(old(chatio.Keys), sites, known, login)
      ensures forall k :: k in old(chatio) ==> k in chatio && chatio[k] == old(chatio[k])
      ensures forall k :: k in chatio && k !in old(chatio) ==>
                fresh(chatio[k]) && chatio[k].rooms == [] && chatio[k].loggedIn
                && chatio[k].cache == None && chatio[k].t == "0" && chatio[k].firstTime
                && login(k).1 == Some(chatio[k].fkey)
    {
      assert sites[0..] == sites;
      for i := 0 to |sites|
        invariant Valid()
        invariant Registration(old(chatio.Keys), sites, known, login) == Registration(chatio.Keys, sites[i..], known, login)
        invariant forall k :: k in old(chatio) ==> k in chatio && chatio[k] == old(chatio[k])
        invariant forall k :: k in chatio && k !in old(chatio) ==>
                    fresh(chatio[k]) && chatio[k].rooms == [] && chatio[k].loggedIn
                    && chatio[k].cache == None && chatio[k].t == "0" && chatio[k].firstTime
                    && login(k).1 == Some(chatio[k].fkey)
      {
        var name := Upper(sites[i]);
        RegistrationStep(chatio.Keys, sites, i, known, login);
        if name !in known {
          return Some(UnknownSite(name));
        }
        if name !in chatio {
          var (ok, fkey) := login(name);
          var session := ChatIO.Open(ChatSite(name), ok, fkey);
          if session.Err? {
            return Some(AuthFailed(name, session.error));
          }
          UpperIdempotent(sites[i]);
          ghost var keys := chatio.Keys;
          chatio := chatio[name := session.value];
          assert chatio.Keys == keys + {name};
        }
      }
      assert sites[|sites|..] == [];
      return None;
    }

    /** joinRoom: the site name is upper-cased; a site with no session is
      an error (a null dereference in the source). */
    method JoinRoom(site: string, ids: seq<int>) returns (err: Option<BotError>)
      requires Valid()
      modifies chatio.Values
      ensures Valid() && chatio == old(chatio)
      ensures err.None? <==> Upper(site) in chatio
      ensures err.Some? ==> err.value == NoIO(Upper(site))
      ensures err.None? ==>
                forall id :: id in chatio[Upper(site)].rooms <==> id in old(chatio[Upper(site)].rooms) || id in ids
      ensures err.None? ==> chatio[Upper(site)].cache.Some?
      ensures Upper(site) in chatio ==> var io := chatio[Upper(site)];
                io.t == old(io.t) && io.firstTime == old(io.firstTime) && io.fkey == old(io.fkey) && io.loggedIn == old(io.loggedIn)
      ensures forall k :: k in chatio && k != Upper(site) ==> unchanged(chatio[k])
    {
      var name := Upper(site);
      if name !in chatio {
        return Some(NoIO(name));
      }
      var io := chatio[name];
      io.JoinRoom(ids);
      err := None;
    }

    /** leaveRoom: the site name is upper-cased; a site with no session is
      left alone. The sandbox room is kept. */
    method LeaveRoom(site: string, ids: seq<int>)
      requires Valid()
      modifies chatio.Values
      ensures Valid() && chatio == old(chatio)
      ensures Upper(site) in chatio ==>
                chatio[Upper(site)].rooms == Leave(old(chatio[Upper(site)].rooms), ids, false).0
      ensures Upper(site) in chatio ==> chatio[Upper(site)].cache.Some?
      ensures Upper(site) in chatio ==> var io := chatio[Upper(site)];
                io.t == old(io.t) && io.firstTime == old(io.firstTime) && io.fkey == old(io.fkey) && io.loggedIn == old(io.loggedIn)
      ensures forall k :: k in chatio && k != Upper(site) ==> unchanged(chatio[k])
    {
      var name := Upper(site);
      if name in chatio {
        var io := chatio[name];
        var _ := io.LeaveRoom(ids, false);
      }
    }

    /** putMessage: the site name is used as given, not upper-cased; the
      message goes out only when the site has a session that is in the
      room. */
    method PutMessage(site: string, room: int, text: string) returns (r: Result<Outgoing, BotError>)
      requires Valid()
      ensures r.Ok? <==> site in chatio && room in chatio[site].rooms
      ensures r.Ok? ==> r.value == Outgoing(site, room, text)
      ensures r.Err? ==> r.error == if site in chatio then NotInRoom(site, room) else NoIO(site)
      ensures Upper(site) != site ==> r == Err(NoIO(site))
    {
      if site !in chatio {
        return Err(NoIO(site));
      }
      var io := chatio[site];
      if !io.IsInRoom(room) {
        return Err(NotInRoom(site, room));
      }
      r := Ok(Outgoing(site, room, text));
    }

    method SetTrigger(trigger: string)
      requires Valid()
      modifies eventhandler.handler
      ensures Valid()
      ensures eventhandler.handler.trigger == Some(trigger)
      ensures eventhandler.handler.learned == old(eventhandler.handler.learned)
      ensures eventhandler.handler.justWaved == old(eventhandler.handler.justWaved)
    {
      eventhandler.handler.SetTrigger(trigger);
    }

    /** One site's getChatEvents within the cycle: only that site's
      session changes. */
    method PollSite(k: string, post: string -> Option<string>, extract: string -> Option<seq<ChatEvent>>)
      returns (r: Result<seq<ChatEvent>, PollError>)
      requires Valid() && k in chatio
      modifies chatio[k]
      ensures Valid() && chatio == old(chatio)
      ensures (chatio[k].State(), r) == Poll(old(States())[k], post, extract)
      ensures States() == old(States())[k := chatio[k].State()]
      ensures forall j :: j in chatio ==> chatio[j].Link() == old(chatio[j].Link())
    {
      var io := chatio[k];
      ghost var before := States();
      r := io.GetChatEvents(post, extract);
      forall j | j in chatio
        ensures States()[j] == before[k := io.State()][j]
      {
        if j != k {
          assert chatio[j].site.name != io.site.name;
        }
      }
      assert States() == before[k := io.State()];
    }

    /** getAllChatEvents: each site's events, appended in the order the
      registry is walked (order, the HashMap's iteration order). */
    method GetAllChatEvents(order: seq<string>, post: string -> string -> Option<string>,
                            extract: string -> string -> Option<seq<ChatEvent>>)
      returns (r: Result<seq<ChatEvent>, PollError>)
      requires Valid()
      requires Distinct(order) && forall k :: k in order <==> k in chatio
      modifies chatio.Values
      ensures Valid() && chatio == old(chatio)
      ensures (States(), r) == PollCycle(old(States()), order, post, extract)
      ensures forall j :: j in chatio ==> chatio[j].Link() == old(chatio[j].Link())
    {
      r := Ok([]);
      ghost var start := States();
      for i := 0 to |order|
        invariant Valid() && chatio == old(chatio)
        invariant (States(), r) == PollCycle(start, order[..i], post, extract)
        invariant forall j :: j in chatio ==> chatio[j].Link() == old(chatio[j].Link())
      {
        PollCycleStep(start, order, i, post, extract);
        if r.Ok? {
          var k := order[i];
          var res := PollSite(k, post(k), extract(k));
          r := if res.Err? then Err(res.error) else Ok(r.value + res.value);
        }
      }
      assert order[..|order|] == order;
    }

    /** The body of the poll loop: hand every event of the list to the
      router, in list order, until one throws; nothing catches that, so the
      rest of the list is never handled. */
    method HandleEvents(events: seq<ChatEvent>) returns (actions: seq<Action>)
      requires eventhandler.Valid()
      modifies eventhandler, eventhandler.handler
      ensures eventhandler.Valid()
      ensures (eventhandler.recent, eventhandler.handler.justWaved, actions) ==
                Steps(old(eventhandler.recent), old(eventhandler.handler.learned), old(eventhandler.handler.trigger),
                      old(eventhandler.handler.justWaved), events)
      ensures eventhandler.handler.learned == old(eventhandler.handler.learned)
      ensures eventhandler.handler.trigger == old(eventhandler.handler.trigger)
    {
      var router := eventhandler;
      ghost var window, learned, trigger, waved :=
        router.recent, router.handler.learned, router.handler.trigger, router.handler.justWaved;
      actions := [];
      var i := 0;
      var stopped := false;
      while i < |events| && !stopped
        invariant 0 <= i <= |events|
        invariant router.Valid()
        invariant router.handler.learned == learned && router.handler.trigger == trigger
        invariant (router.recent, router.handler.justWaved, actions) ==
                    Steps(window, learned, trigger, waved, events[..i])
        invariant stopped == Halted(actions)
      {
        StepsNext(window, learned, trigger, waved, events, i);
        var a := router.Handle(events[i]);
        actions := actions + [a];
        stopped := a.Throws();
        i := i + 1;
      }
      if i < |events| {
        StepsAfterHalt(window, learned, trigger, waved, events, i);
      } else {
        assert events[..|events|] == events;
      }
    }

    /** One turn of the poll thread's loop: poll every site, then hand the
      events to the router. An exception in either ends the thread for
      good, which stops says. */
    method PollOnce(order: seq<string>, post: string -> string -> Option<string>,
                    extract: string -> string -> Option<seq<ChatEvent>>)
      returns (r: Result<seq<ChatEvent>, PollError>, actions: seq<Action>, stops: bool)
      requires Valid()
      requires Distinct(order) && forall k :: k in order <==> k in chatio
      modifies chatio.Values, eventhandler, eventhandler.handler
      ensures Valid() && chatio == old(chatio)
      ensures (States(), r) == PollCycle(old(States()), order, post, extract)
      ensures r.Err? ==> actions == [] && unchanged(eventhandler, eventhandler.handler)
      ensures r.Ok? ==>
                (eventhandler.recent, eventhandler.handler.justWaved, actions) ==
                  Steps(old(eventhandler.recent), old(eventhandler.handler.learned), old(eventhandler.handler.trigger),
                        old(eventhandler.handler.justWaved), r.value)
      ensures stops <==> r.Err? || Halted(actions)
      ensures forall j :: j in chatio ==> chatio[j].Link() == old(chatio[j].Link())
    {
      r := GetAllChatEvents(order, post, extract);
      if r.Err? {
        return r, [], true;
      }
      actions, stops := Route(r.value);
    }

    /** The second half of a turn: the router handles the events, and the
      sessions are left as the poll left them. */
    method Route(events: seq<ChatEvent>) returns (actions: seq<Action>, stops: bool)
      requires Valid()
      modifies eventhandler, eventhandler.handler
      ensures Valid() && States() == old(States())
      ensures forall j :: j in chatio ==> chatio[j].Link() == old(chatio[j].Link())
      ensures (eventhandler.recent, eventhandler.handler.justWaved, actions) ==
                Steps(old(eventhandler.recent), old(eventhandler.handler.learned), old(eventhandler.handler.trigger),
                      old(eventhandler.handler.justWaved), events)
      ensures stops <==> Halted(actions)
    {
      actions := HandleEvents(events);
      stops := Halted(actions);
    }
  }
}
