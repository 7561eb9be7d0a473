/** One chat site's session (chat.io.ChatIO): the joined rooms, the cached
    body of the event poll, the poll cursor t, and login and logout. The
    network is abstract: each request's outcome is a parameter. */
module Sessions {
  import opened Wrappers
  import opened Text
  import opened Order
  import opened UrlCodec
  import opened Events

  const FkeyKey: string := "fkey"

  /** The field name of a room in the poll body: "r" followed by the id. */
  function RoomKey(id: int): string { "r" + IntString(id) }

  lemma RoomKeyDistinct(a: int, b: int)
    ensures a != b ==> RoomKey(a) != RoomKey(b)
  {
    if RoomKey(a) == RoomKey(b) {
      assert RoomKey(a)[1..] == IntString(a);
      assert RoomKey(b)[1..] == IntString(b);
      IntStringInjective(a, b);
    }
  }

  lemma RoomKeyNotFkey(id: int)
    ensures RoomKey(id) != FkeyKey
  {
    assert RoomKey(id)[0] == 'r';
  }

  lemma RoomKeyClean(id: int)
    ensures Placeholder !in RoomKey(id)
  {
    var s := IntString(id);
    assert forall i :: 0 <= i < |s| ==> IsDigit(s[i]) || s[i] == '-' by {
      if id < 0 {
        assert s[1..] == NatString(-id);
      }
    }
    assert forall i :: 1 <= i < |RoomKey(id)| ==> RoomKey(id)[i] == s[i - 1];
  }

  /** The field names of the rooms. */
  function RoomKeys(rooms: seq<int>): set<string>
    decreases |rooms|
  {
    if rooms == [] then {} else RoomKeys(rooms[..|rooms| - 1]) + {RoomKey(rooms[|rooms| - 1])}
  }

  lemma {:induction false} RoomKeyIn(rooms: seq<int>, id: int)
    requires id in rooms
    ensures RoomKey(id) in RoomKeys(rooms)
    decreases |rooms|
  {
    var p := rooms[..|rooms| - 1];
    assert rooms == p + [rooms[|rooms| - 1]];
    if id != rooms[|rooms| - 1] {
      RoomKeyIn(p, id);
    }
  }

  lemma {:induction false} RoomOfKey(rooms: seq<int>, k: string) returns (id: int)
    requires k in RoomKeys(rooms)
    ensures id in rooms && k == RoomKey(id)
    decreases |rooms|
  {
    var p := rooms[..|rooms| - 1];
    assert rooms == p + [rooms[|rooms| - 1]];
    if k == RoomKey(rooms[|rooms| - 1]) {
      id := rooms[|rooms| - 1];
    } else {
      id := RoomOfKey(p, k);
    }
  }

  /** The field names of the poll body for a set of rooms. */
  function CacheKeys(rooms: seq<int>): set<string>
  {
    {FkeyKey} + RoomKeys(rooms)
  }

  /** The field of the poll body named key: the fkey, or a room's placeholder. */
  function Entry(fkey: string, key: string): (string, string)
  {
    (key, if key == FkeyKey then fkey else [Placeholder])
  }

  /** The fields named by ks, in that order. */
  function FieldsOf(fkey: string, ks: seq<string>): seq<(string, string)>
  {
    if ks == [] then [] else [Entry(fkey, ks[0])] + FieldsOf(fkey, ks[1..])
  }

  lemma {:induction false} FieldsOfIndex(fkey: string, ks: seq<string>)
    ensures |FieldsOf(fkey, ks)| == |ks|
    ensures forall i :: 0 <= i < |ks| ==> FieldsOf(fkey, ks)[i] == Entry(fkey, ks[i])
    decreases |ks|
  {
    if ks != [] {
      FieldsOfIndex(fkey, ks[1..]);
    }
  }

  /** The fields of the poll body, in increasing order of name. */
  ghost function CacheFields(fkey: string, rooms: seq<int>): seq<(string, string)>
  {
    FieldsOf(fkey, SortedSeq(CacheKeys(rooms)))
  }

  /** The poll body the cache is meant to hold. */
  ghost function CacheFor(fkey: string, rooms: seq<int>): string
  {
    FormEncode(CacheFields(fkey, rooms))
  }

  lemma {:induction false} RoomKeyNotIn(rooms: seq<int>, id: int)
    requires id !in rooms
    ensures RoomKey(id) !in RoomKeys(rooms)
    decreases |rooms|
  {
    if rooms != [] {
      var p := rooms[..|rooms| - 1];
      assert rooms == p + [rooms[|rooms| - 1]];
      RoomKeyDistinct(rooms[|rooms| - 1], id);
      RoomKeyNotIn(p, id);
    }
  }

  lemma {:induction false} RoomKeysCount(rooms: seq<int>)
    requires Distinct(rooms)
    ensures |RoomKeys(rooms)| == |rooms|
    decreases |rooms|
  {
    if rooms != [] {
      var p := rooms[..|rooms| - 1];
      var x := rooms[|rooms| - 1];
      assert rooms == p + [x];
      assert Distinct(p);
      RoomKeysCount(p);
      RoomKeyNotIn(p, x);
    }
  }

  lemma CacheKeysCount(rooms: seq<int>)
    requires Increasing(rooms)
    ensures |CacheKeys(rooms)| == |rooms| + 1
  {
    RoomKeysCount(rooms);
    if FkeyKey in RoomKeys(rooms) {
      var id := RoomOfKey(rooms, FkeyKey);
      RoomKeyNotFkey(id);
    }
  }

  /** "fkey" sorts before every room field, as 'f' < 'r'. */
  lemma FkeyFirst(rooms: seq<int>)
    ensures |SortedSeq(CacheKeys(rooms))| > 0
    ensures SortedSeq(CacheKeys(rooms))[0] == FkeyKey
  {
    var ks := SortedSeq(CacheKeys(rooms));
    SortedSeqSpec(CacheKeys(rooms));
    assert FkeyKey in ks;
    forall k | k in ks && k != FkeyKey ensures !Less(k, FkeyKey) {
      var id := RoomOfKey(rooms, k);
      assert k[0] == 'r' && FkeyKey[0] == 'f';
      assert Less(FkeyKey, k);
      LessAsymmetric(FkeyKey, k);
    }
    assert ks[0] in ks;
  }

  /** After "fkey", the sorted field names are all room fields. */
  lemma LaterKeysAreRooms(rooms: seq<int>)
    ensures var ks := SortedSeq(CacheKeys(rooms));
      forall i :: 0 < i < |ks| ==> ks[i] != FkeyKey && ks[i] in RoomKeys(rooms)
  {
    var ks := SortedSeq(CacheKeys(rooms));
    SortedSeqSpec(CacheKeys(rooms));
    FkeyFirst(rooms);
    forall i | 0 < i < |ks| ensures ks[i] != FkeyKey && ks[i] in RoomKeys(rooms) {
      SortedDistinct(ks, 0, i);
      assert ks[i] in ks;
    }
  }

  /** The poll body holds the fkey first and then exactly one field per
      room, each with the placeholder as value. */
  lemma CacheFieldsShape(fkey: string, rooms: seq<int>)
    requires Increasing(rooms)
    ensures var fs := CacheFields(fkey, rooms);
      && |fs| == |rooms| + 1
      && fs[0] == (FkeyKey, fkey)
      && (forall i :: 0 < i < |fs| ==> fs[i].1 == [Placeholder] && fs[i].0 in RoomKeys(rooms))
  {
    var ks := SortedSeq(CacheKeys(rooms));
    SortedSeqSpec(CacheKeys(rooms));
    CacheKeysCount(rooms);
    FkeyFirst(rooms);
    LaterKeysAreRooms(rooms);
    FieldsOfIndex(fkey, ks);
  }

  /** Every room has its placeholder field in the poll body. */
  lemma RoomField(fkey: string, rooms: seq<int>, id: int)
    requires id in rooms
    ensures (RoomKey(id), [Placeholder]) in CacheFields(fkey, rooms)
  {
    var ks := SortedSeq(CacheKeys(rooms));
    SortedSeqSpec(CacheKeys(rooms));
    FieldsOfIndex(fkey, ks);
    RoomKeyNotFkey(id);
    RoomKeyIn(rooms, id);
    var i :| 0 <= i < |ks| && ks[i] == RoomKey(id);
    assert CacheFields(fkey, rooms)[i] == Entry(fkey, ks[i]);
  }

  /** No field of the poll body holds the placeholder in its name, and
      only a room field holds it, as its whole value. */
  lemma EntryClean(fkey: string, rooms: seq<int>, k: string)
    requires Placeholder !in fkey && k in CacheKeys(rooms)
    ensures var e := Entry(fkey, k);
      Placeholder !in e.0 && (e.1 == [Placeholder] || Placeholder !in e.1)
  {
    if k != FkeyKey {
      var id := RoomOfKey(rooms, k);
      RoomKeyClean(id);
    }
  }

  lemma CacheFieldsClean(fkey: string, rooms: seq<int>)
    requires Placeholder !in fkey
    ensures PlaceholderOnlyAsValue(CacheFields(fkey, rooms))
  {
    var ks := SortedSeq(CacheKeys(rooms));
    var fs := CacheFields(fkey, rooms);
    SortedSeqSpec(CacheKeys(rooms));
    FieldsOfIndex(fkey, ks);
    forall i | 0 <= i < |fs|
      ensures Placeholder !in fs[i].0 && (fs[i].1 == [Placeholder] || Placeholder !in fs[i].1)
    {
      assert ks[i] in ks;
      EntryClean(fkey, rooms, ks[i]);
    }
  }

  /** The body a poll sends: the cached body with every encoded placeholder
      replaced by the cursor is the body whose room fields carry the cursor. */
  lemma PollBody(fkey: string, rooms: seq<int>, t: string)
    requires IsDigits(t) && Placeholder !in fkey
    ensures ReplaceAll(CacheFor(fkey, rooms), EncodedPlaceholder, t)
         == FormEncode(WithCursor(CacheFields(fkey, rooms), t))
  {
    CacheFieldsClean(fkey, rooms);
    SubstituteCursor(CacheFields(fkey, rooms), t);
  }

  function EntryKey(e: (string, string)): string { e.0 }

  function KeysOf(entries: seq<(string, string)>): (ks: seq<string>)
    ensures |ks| == |entries|
    ensures forall i :: 0 <= i < |entries| ==> ks[i] == entries[i].0
  {
    seq(|entries|, i requires 0 <= i < |entries| => entries[i].0)
  }

  predicate EntriesFor(entries: seq<(string, string)>, fkey: string)
  {
    forall i :: 0 <= i < |entries| ==> entries[i] == Entry(fkey, entries[i].0)
  }

  predicate DistinctKeys(entries: seq<(string, string)>)
  {
    forall i, j :: 0 <= i < j < |entries| ==> entries[i].0 != entries[j].0
  }

  /** The next room's field name is new: rooms increase, so the id was not
      collected before, and no room field is named "fkey". */
  lemma NextRoomKeyFresh(rooms: seq<int>, i: int)
    requires Increasing(rooms) && 0 <= i < |rooms|
    ensures RoomKey(rooms[i]) !in CacheKeys(rooms[..i])
  {
    var id := rooms[i];
    forall j | 0 <= j < i ensures rooms[..i][j] != id {
      assert rooms[..i][j] == rooms[j];
    }
    RoomKeyNotFkey(id);
    RoomKeyNotIn(rooms[..i], id);
  }

  lemma RoomKeysNext(rooms: seq<int>, i: int)
    requires 0 <= i < |rooms|
    ensures RoomKeys(rooms[..i + 1]) == RoomKeys(rooms[..i]) + {RoomKey(rooms[i])}
  {
    var p := rooms[..i + 1];
    assert p[..|p| - 1] == rooms[..i];
    assert p[|p| - 1] == rooms[i];
  }

  lemma CollectStep(entries: seq<(string, string)>, fkey: string, rooms: seq<int>, i: int)
    requires Increasing(rooms) && 0 <= i < |rooms|
    requires EntriesFor(entries, fkey) && DistinctKeys(entries)
    requires forall k :: k in KeysOf(entries) <==> k in CacheKeys(rooms[..i])
    ensures var e := entries + [(RoomKey(rooms[i]), [Placeholder])];
      EntriesFor(e, fkey) && DistinctKeys(e)
      && forall k :: k in KeysOf(e) <==> k in CacheKeys(rooms[..i + 1])
  {
    var key := RoomKey(rooms[i]);
    NextRoomKeyFresh(rooms, i);
    RoomKeysNext(rooms, i);
    RoomKeyNotFkey(rooms[i]);
    forall j | 0 <= j < |entries| ensures entries[j].0 != key {
      assert KeysOf(entries)[j] in KeysOf(entries);
    }
    var e := entries + [(key, [Placeholder])];
    assert KeysOf(e) == KeysOf(entries) + [key];
  }

  /** The fields updateChatEventGetterStringCache collects before sorting:
      the fkey, then one placeholder field per room. */
  method CollectEntries(fkey: string, rooms: seq<int>) returns (entries: seq<(string, string)>)
    requires Increasing(rooms)
    ensures EntriesFor(entries, fkey) && DistinctKeys(entries)
    ensures forall k :: k in KeysOf(entries) <==> k in CacheKeys(rooms)
  {
    entries := [(FkeyKey, fkey)];
    assert RoomKeys(rooms[..0]) == {};
    assert KeysOf(entries) == [FkeyKey];
    for i := 0 to |rooms|
      invariant EntriesFor(entries, fkey) && DistinctKeys(entries)
      invariant forall k :: k in KeysOf(entries) <==> k in CacheKeys(rooms[..i])
    {
      CollectStep(entries, fkey, rooms, i);
      entries := entries + [(RoomKey(rooms[i]), [Placeholder])];
    }
    assert rooms[..|rooms|] == rooms;
  }

  /** A reordering of the collected fields still holds one field per name,
      each with its intended value. */
  lemma PermutedEntries(sorted: seq<(string, string)>, entries: seq<(string, string)>, fkey: string)
    requires EntriesFor(entries, fkey) && DistinctKeys(entries)
    requires multiset(sorted) == multiset(entries)
    ensures EntriesFor(sorted, fkey) && DistinctKeys(sorted)
  {
    assert Distinct(entries);
    PermutationDistinct(entries, sorted);
    forall i | 0 <= i < |sorted| ensures sorted[i] == Entry(fkey, sorted[i].0) {
      assert sorted[i] in multiset(entries);
      var j :| 0 <= j < |entries| && entries[j] == sorted[i];
    }
    forall i, j | 0 <= i < j < |sorted| ensures sorted[i].0 != sorted[j].0 {
      assert sorted[i] != sorted[j];
    }
  }

  /** A reordering of the collected fields has the same names. */
  lemma PermutedKeys(sorted: seq<(string, string)>, entries: seq<(string, string)>, K: set<string>)
    requires forall k :: k in KeysOf(entries) <==> k in K
    requires multiset(sorted) == multiset(entries)
    ensures forall k :: k in KeysOf(sorted) <==> k in K
  {
    var ks := KeysOf(sorted);
    forall k ensures k in ks <==> k in K {
      if k in ks {
        var i :| 0 <= i < |sorted| && ks[i] == k;
        assert sorted[i] in multiset(entries);
        var j :| 0 <= j < |entries| && entries[j] == sorted[i];
        assert KeysOf(entries)[j] == k;
      }
      if k in K {
        var j :| 0 <= j < |entries| && KeysOf(entries)[j] == k;
        assert entries[j] in multiset(sorted);
        var i :| 0 <= i < |sorted| && sorted[i] == entries[j];
        assert ks[i] == k;
      }
    }
  }

  /** Sorting the collected fields by name yields the intended fields. */
  lemma SortedEntries(sorted: seq<(string, string)>, entries: seq<(string, string)>,
                      fkey: string, K: set<string>)
    requires EntriesFor(entries, fkey) && DistinctKeys(entries)
    requires forall k :: k in KeysOf(entries) <==> k in K
    requires SortedBy(sorted, EntryKey) && multiset(sorted) == multiset(entries)
    ensures sorted == FieldsOf(fkey, SortedSeq(K))
  {
    PermutedEntries(sorted, entries, fkey);
    PermutedKeys(sorted, entries, K);
    SortedByDistinctKeys(sorted, EntryKey);
    var ks := KeysOf(sorted);
    assert StrictlySorted(ks);
    SortedSeqOf(ks, K);
    FieldsOfIndex(fkey, ks);
  }

  /** leaveRoom's effect: the rooms that remain, and the rooms a leave
      request is sent for, in the order asked. Room 1, the sandbox, is only
      left during logout. */
  function Leave(rooms: seq<int>, ids: seq<int>, isLogout: bool): (r: (seq<int>, seq<int>))
    requires Increasing(rooms)
    ensures Increasing(r.0)
    decreases |ids|
  {
    if ids == [] then (rooms, [])
    else
      var id := ids[0];
      if id == 1 && !isLogout then Leave(rooms, ids[1..], isLogout)
      else if id in rooms then
        var rest := Leave(Without(rooms, id), ids[1..], isLogout);
        (rest.0, [id] + rest.1)
      else Leave(rooms, ids[1..], isLogout)
  }

  /** A room remains exactly when it was joined and either was not asked
      for or is the sandbox outside logout; a leave request goes out exactly
      once for every room that no longer remains. */
  lemma {:induction false} LeaveEffect(rooms: seq<int>, ids: seq<int>, isLogout: bool)
    requires Increasing(rooms)
    ensures forall x :: x in Leave(rooms, ids, isLogout).0 <==>
      x in rooms && (x !in ids || (x == 1 && !isLogout))
    ensures forall x :: x in Leave(rooms, ids, isLogout).1 <==>
      x in rooms && x !in Leave(rooms, ids, isLogout).0
    ensures Distinct(Leave(rooms, ids, isLogout).1)
    decreases |ids|
  {
    if ids != [] {
      var id := ids[0];
      assert forall x :: x in ids <==> x == id || x in ids[1..];
      if id == 1 && !isLogout {
        LeaveEffect(rooms, ids[1..], isLogout);
      } else if id in rooms {
        var w := Without(rooms, id);
        LeaveEffect(w, ids[1..], isLogout);
        var rest := Leave(w, ids[1..], isLogout);
        assert id !in rest.1;
        var l := [id] + rest.1;
        forall i, j | 0 <= i < j < |l| ensures l[i] != l[j] {
          if i == 0 {
            assert l[j] == rest.1[j - 1];
          } else {
            assert l[i] == rest.1[i - 1] && l[j] == rest.1[j - 1];
          }
        }
      } else {
        LeaveEffect(rooms, ids[1..], isLogout);
      }
    }
  }

  /** Outside logout the sandbox room is never left. */
  lemma SandboxKept(rooms: seq<int>, ids: seq<int>)
    requires Increasing(rooms) && 1 in rooms
    ensures 1 in Leave(rooms, ids, false).0
    ensures 1 !in Leave(rooms, ids, false).1
  {
    LeaveEffect(rooms, ids, false);
  }

  /** During logout, asking for every room leaves all of them, each once
      and in increasing order. */
  lemma {:induction false} LeaveAllAtLogout(rooms: seq<int>)
    requires Increasing(rooms)
    ensures Leave(rooms, rooms, true) == ([], rooms)
    decreases |rooms|
  {
    if rooms != [] {
      assert Without(rooms, rooms[0]) == rooms[1..];
      LeaveAllAtLogout(rooms[1..]);
      assert [rooms[0]] + rooms[1..] == rooms;
    }
  }

  lemma LeaveStep(rooms: seq<int>, ids: seq<int>, i: int, isLogout: bool)
    requires Increasing(rooms) && 0 <= i < |ids|
    ensures ids[i] == 1 && !isLogout ==>
      Leave(rooms, ids[i..], isLogout) == Leave(rooms, ids[i + 1..], isLogout)
    ensures !(ids[i] == 1 && !isLogout) && ids[i] !in rooms ==>
      Leave(rooms, ids[i..], isLogout) == Leave(rooms, ids[i + 1..], isLogout)
    ensures !(ids[i] == 1 && !isLogout) && ids[i] in rooms ==>
      var rest := Leave(Without(rooms, ids[i]), ids[i + 1..], isLogout);
      Leave(rooms, ids[i..], isLogout) == (rest.0, [ids[i]] + rest.1)
  {
    assert ids[i..][0] == ids[i] && ids[i..][1..] == ids[i + 1..];
  }

  /** During logout, leaving the smallest room removes just that room. */
  lemma LeaveFirst(rooms: seq<int>)
    requires Increasing(rooms) && rooms != []
    ensures Leave(rooms, [rooms[0]], true) == (rooms[1..], [rooms[0]])
  {
    assert [rooms[0]][1..] == [];
    assert Without(rooms, rooms[0]) == rooms[1..];
    assert Leave(rooms[1..], [], true) == (rooms[1..], []);
    assert [rooms[0]] + [] == [rooms[0]];
  }

  const CursorKey: string := "\"t\":"

  /** A match of the regular expression "t"\:(\d+) starts at i: the key,
      then at least one digit. */
  predicate IsCursorAt(s: string, i: int)
  {
    0 <= i && i + 5 <= |s| && s[i..i + 4] == CursorKey && IsDigit(s[i + 4])
  }

  /** What the group of such a match captures: the whole digit run after
      the key. */
  function CursorDigitsAt(s: string, i: int): (d: string)
    requires IsCursorAt(s, i)
    ensures d != [] && IsDigits(d)
  {
    var n := DigitRun(s[i + 4..]);
    assert s[i + 4..][..n] == s[i + 4..i + 4 + n];
    s[i + 4..i + 4 + n]
  }

  /** The cursor a poll response carries: the capture of the leftmost
      match, as search() returns it. */
  function FindCursor(response: string): (r: Option<string>)
    ensures r.Some? ==> r.value != [] && IsDigits(r.value)
    decreases |response|
  {
    if |response| < 5 then None
    else if IsCursorAt(response, 0) then Some(CursorDigitsAt(response, 0))
    else FindCursor(response[1..])
  }

  lemma CursorAtShift(s: string, i: int)
    requires s != [] && 0 <= i
    ensures IsCursorAt(s[1..], i) <==> IsCursorAt(s, i + 1)
  {
    if i + 5 <= |s[1..]| {
      assert s[1..][i..i + 4] == s[i + 1..i + 5];
      assert s[1..][i + 4] == s[i + 5];
    }
  }

  /** No cursor is found exactly when the response holds no match. */
  lemma {:induction false} FindCursorNone(s: string)
    ensures FindCursor(s).None? <==> forall i :: !IsCursorAt(s, i)
    decreases |s|
  {
    if |s| >= 5 && !IsCursorAt(s, 0) {
      FindCursorNone(s[1..]);
      if FindCursor(s[1..]).None? {
        forall i | 1 <= i
          ensures !IsCursorAt(s, i)
        {
          CursorAtShift(s, i - 1);
        }
      } else {
        var i :| IsCursorAt(s[1..], i);
        CursorAtShift(s, i);
      }
    }
  }

  /** The cursor found is the capture of the leftmost match. */
  lemma {:induction false} CursorAtLeftmost(s: string, i: int)
    requires IsCursorAt(s, i)
    requires forall j :: 0 <= j < i ==> !IsCursorAt(s, j)
    ensures FindCursor(s) == Some(CursorDigitsAt(s, i))
    decreases i
  {
    if i > 0 {
      CursorAtShift(s, i - 1);
      forall j | 0 <= j < i - 1
        ensures !IsCursorAt(s[1..], j)
      {
        CursorAtShift(s, j);
      }
      CursorAtLeftmost(s[1..], i - 1);
      assert s[1..][i + 3..] == s[i + 4..];
      var n := DigitRun(s[i + 4..]);
      assert s[1..][i + 3..i + 3 + n] == s[i + 4..i + 4 + n];
    }
  }

  /** The cursor is the whole digit run after the first "t": of the
      response that is followed by a digit. */
  lemma CursorFound(p: string, d: string, rest: string)
    requires forall i :: 0 <= i < |p| ==> !IsCursorAt(p + CursorKey + d + rest, i)
    requires d != [] && IsDigits(d) && (rest == [] || !IsDigit(rest[0]))
    ensures FindCursor(p + CursorKey + d + rest) == Some(d)
  {
    var s := p + CursorKey + d + rest;
    var tail := d + rest;
    assert s == p + CursorKey + tail;
    assert s[|p|..|p| + 4] == CursorKey;
    assert s[|p| + 4..] == tail;
    assert s[|p| + 4] == d[0];
    DigitRunOf(d, rest);
    assert IsCursorAt(s, |p|);
    CursorAtLeftmost(s, |p|);
    assert tail[..|d|] == d;
  }

  /** A response without a quote holds no match, so it has no cursor. */
  lemma {:induction false} NoCursorWithoutQuote(response: string)
    requires '"' !in response
    ensures FindCursor(response) == None
    decreases |response|
  {
    if |response| >= 5 {
      assert response[..4][0] == response[0];
      NoCursorWithoutQuote(response[1..]);
    }
  }

  datatype PollError = NoPollBody

  /** What one poll reads and writes: the cached body, the cursor and
      whether the next poll is the first. */
  datatype PollState = PollState(cache: Option<string>, t: string, firstTime: bool)

  /** getChatEvents: send the cached body with the cursor in it, take the
      new cursor from the response, and hand back its events, except on the
      first poll, whose events are the backlog and are dropped. A failed
      request and an unparsable event list both yield no events. */
  function Poll(st: PollState, post: string -> Option<string>,
                extract: string -> Option<seq<ChatEvent>>): (r: (PollState, Result<seq<ChatEvent>, PollError>))
    ensures r.1.Err? <==> st.cache.None?
    ensures r.1.Err? || post(ReplaceAll(st.cache.value, EncodedPlaceholder, st.t)).None? ==> r.0 == st
    ensures r.0.cache == st.cache
    ensures IsDigits(st.t) && st.t != [] ==> IsDigits(r.0.t) && r.0.t != []
    ensures st.firstTime && r.1.Ok? ==> r.1.value == []
    ensures r.1.Ok? && r.1.value != [] ==> r.0.t == st.t || FindCursor(post(ReplaceAll(st.cache.value, EncodedPlaceholder, st.t)).value) == Some(r.0.t)
  {
    match st.cache
    case None => (st, Err(NoPollBody))
    case Some(body) =>
      match post(ReplaceAll(body, EncodedPlaceholder, st.t))
      case None => (st, Ok([]))
      case Some(response) =>
        var t := match FindCursor(response) case Some(c) => c case None => st.t;
        if st.firstTime then (PollState(st.cache, t, false), Ok([]))
        else
          var events := match extract(response) case Some(es) => es case None => [];
          (PollState(st.cache, t, false), Ok(events))
  }

  /** The cursor rule of a successful exchange: a response with no match
      of "t":\d+ leaves the cursor as it was, and otherwise the cursor
      becomes the digits of the leftmost match. */
  lemma PollCursor(st: PollState, post: string -> Option<string>,
                   extract: string -> Option<seq<ChatEvent>>, resp: string)
    requires st.cache.Some?
    requires post(ReplaceAll(st.cache.value, EncodedPlaceholder, st.t)) == Some(resp)
    ensures (forall i :: !IsCursorAt(resp, i)) ==> Poll(st, post, extract).0.t == st.t
    ensures forall i :: IsCursorAt(resp, i) && (forall j :: 0 <= j < i ==> !IsCursorAt(resp, j)) ==>
              Poll(st, post, extract).0.t == CursorDigitsAt(resp, i)
  {
    FindCursorNone(resp);
    forall i | IsCursorAt(resp, i) && (forall j :: 0 <= j < i ==> !IsCursorAt(resp, j))
      ensures Poll(st, post, extract).0.t == CursorDigitsAt(resp, i)
    {
      CursorAtLeftmost(resp, i);
    }
  }

  /** The backlog is dropped exactly once. From a session not yet polled,
      a successful first exchange yields no events and ends the first-poll
      phase for good; the second poll is sent with the first response's
      cursor when it had one, and yields the events of its own response. */
  lemma BacklogDroppedOnce(st: PollState,
                           post1: string -> Option<string>, extract1: string -> Option<seq<ChatEvent>>,
                           post2: string -> Option<string>, extract2: string -> Option<seq<ChatEvent>>)
    requires st.cache.Some? && st.firstTime
    requires post1(ReplaceAll(st.cache.value, EncodedPlaceholder, st.t)).Some?
    ensures var (st1, r1) := Poll(st, post1, extract1);
      var first := post1(ReplaceAll(st.cache.value, EncodedPlaceholder, st.t)).value;
      var sent := ReplaceAll(st.cache.value, EncodedPlaceholder, st1.t);
      && r1 == Ok([])
      && (FindCursor(first).Some? ==> st1.t == FindCursor(first).value)
      && !Poll(st1, post2, extract2).0.firstTime
      && (post2(sent).Some? ==>
            var es := extract2(post2(sent).value);
            Poll(st1, post2, extract2).1 == Ok(if es.Some? then es.value else []))
  {
  }

  datatype AuthError = LoginFailed | FkeyNotFound | NotLoggedIn | LogoutFailed

  /** logout as written: rooms.forEach(this::leaveRoom) walks the live room
      set while leaveRoom removes from it. The first room is left; if
      another remains, the set's fail-fast iterator throws
      ConcurrentModificationException, which logout turns into a failed
      logout with the session still logged in. Gives the rooms still
      joined, whether still logged in, and the leave requests sent. */
  function LogoutAsWritten(rooms: seq<int>, handshakeOk: bool): (r: (seq<int>, bool, seq<int>))
    requires Increasing(rooms)
    ensures |r.0| + |r.2| == |rooms|
    ensures r.2 == rooms[..|r.2|] && r.0 == rooms[|r.2|..]
  {
    if |rooms| <= 1 then ([], !handshakeOk, rooms)
    else (rooms[1..], true, [rooms[0]])
  }

  /** With two rooms the bot stays logged in and stays in the second room,
      even though the logout handshake would have succeeded. */
  lemma LogoutAsWrittenStrands()
    ensures LogoutAsWritten([1, 2], true) == ([2], true, [1])
  {
    assert [1, 2][1..] == [2];
  }

  class ChatIO {
    const site: ChatSite
    var fkey: string
    var loggedIn: bool
    var rooms: seq<int>
    var firstTime: bool
    var t: string
    var cache: Option<string>

    /** The rooms form a set in increasing order, the cursor is a decimal
        number, and the poll body is built on the first join. */
    ghost predicate Valid()
      reads this
    {
      Increasing(rooms) && t != [] && IsDigits(t)
      && (cache.None? ==> rooms == [])
    }

    /** The cached poll body, once built, is the body for the current rooms. */
    ghost predicate CacheCurrent()
      reads this`fkey, this`rooms, this`cache
    {
      cache.Some? ==> cache.value == CacheFor(fkey, rooms)
    }

    function State(): PollState
      reads this
    {
      PollState(cache, t, firstTime)
    }

    /** What a poll leaves alone: the rooms, the fkey and the login. */
    ghost function Link(): (seq<int>, string, bool)
      reads this
    {
      (rooms, fkey, loggedIn)
    }

    constructor(site: ChatSite, fkey: string)
      ensures Valid() && CacheCurrent()
      ensures this.site == site && this.fkey == fkey && loggedIn
      ensures rooms == [] && cache == None && t == "0" && firstTime
    {
      this.site := site;
      this.fkey := fkey;
      loggedIn := true;
      rooms := [];
      firstTime := true;
      t := "0";
      cache := None;
    }

    /** The constructor: log in (the handshake's outcome is given), then
        scrape the fkey from room 1's page; either failure is an
        authentication error and no session exists. */
    static method Open(site: ChatSite, handshakeOk: bool, scrapedFkey: Option<string>)
      returns (r: Result<ChatIO, AuthError>)
      ensures r.Ok? <==> handshakeOk && scrapedFkey.Some?
      ensures r.Err? ==> r.error == (if !handshakeOk then LoginFailed else FkeyNotFound)
      ensures r.Ok? ==>
        fresh(r.value) && r.value.Valid() && r.value.CacheCurrent() && r.value.site == site
        && r.value.loggedIn && r.value.fkey == scrapedFkey.value
        && r.value.rooms == [] && r.value.cache == None && r.value.t == "0" && r.value.firstTime
    {
      if !handshakeOk {
        return Err(LoginFailed);
      }
      if scrapedFkey.None? {
        return Err(FkeyNotFound);
      }
      var io := new ChatIO(site, scrapedFkey.value);
      r := Ok(io);
    }

    function IsInRoom(id: int): (r: bool)
      reads this
      ensures r <==> id in rooms
    {
      id in rooms
    }

    /** updateChatEventGetterStringCache: the fkey field and one
        placeholder field per room, sorted by name, form-encoded. */
    method UpdateCache()
      requires Increasing(rooms)
      modifies this
      ensures cache.Some? && CacheCurrent()
      ensures rooms == old(rooms) && fkey == old(fkey) && loggedIn == old(loggedIn)
      ensures t == old(t) && firstTime == old(firstTime)
    {
      var entries := CollectEntries(fkey, rooms);
      var sorted := SortByKey(entries, EntryKey);
      SortedEntries(sorted, entries, fkey, CacheKeys(rooms));
      cache := Some(FormEncode(sorted));
    }

    /** joinRoom: add every id to the room set, then rebuild the poll body. */
    method JoinRoom(ids: seq<int>)
      requires Valid()
      modifies this
      ensures Valid()
      ensures forall id :: id in rooms <==> id in old(rooms) || id in ids
      ensures cache.Some? && CacheCurrent()
      ensures fkey == old(fkey) && loggedIn == old(loggedIn)
      ensures t == old(t) && firstTime == old(firstTime)
    {
      for i := 0 to |ids|
        invariant Increasing(rooms)
        invariant forall id :: id in rooms <==> id in old(rooms) || id in ids[..i]
        invariant fkey == old(fkey) && loggedIn == old(loggedIn)
        invariant t == old(t) && firstTime == old(firstTime)
      {
        assert ids[..i + 1] == ids[..i] + [ids[i]];
        if ids[i] !in rooms {
          rooms := InsertIncreasing(rooms, ids[i]);
        }
      }
      assert ids[..|ids|] == ids;
      UpdateCache();
    }

    /** leaveRoom: leave each asked room that is joined (the sandbox only
        during logout), then rebuild the poll body. Gives the rooms a leave
        request was sent for. */
    method LeaveRoom(ids: seq<int>, isLogout: bool) returns (left: seq<int>)
      requires Valid()
      modifies this
      ensures Valid()
      ensures (rooms, left) == Leave(old(rooms), ids, isLogout)
      ensures cache.Some? && CacheCurrent()
      ensures fkey == old(fkey) && loggedIn == old(loggedIn)
      ensures t == old(t) && firstTime == old(firstTime)
    {
      left := [];
      ghost var goal := Leave(rooms, ids, isLogout);
      assert ids[0..] == ids && left + goal.1 == goal.1;
      for i := 0 to |ids|
        invariant Increasing(rooms)
        invariant goal.0 == Leave(rooms, ids[i..], isLogout).0
        invariant goal.1 == left + Leave(rooms, ids[i..], isLogout).1
        invariant fkey == old(fkey) && loggedIn == old(loggedIn)
        invariant t == old(t) && firstTime == old(firstTime)
      {
        LeaveStep(rooms, ids, i, isLogout);
        if ids[i] == 1 && !isLogout {
        } else if ids[i] in rooms {
          ghost var rest := Leave(Without(rooms, ids[i]), ids[i + 1..], isLogout);
          assert left + ([ids[i]] + rest.1) == (left + [ids[i]]) + rest.1;
          rooms := Without(rooms, ids[i]);
          left := left + [ids[i]];
        }
      }
      assert ids[|ids|..] == [];
      assert left + [] == left;
      UpdateCache();
    }

    /** getChatEvents, against the poll function. */
    method GetChatEvents(post: string -> Option<string>, extract: string -> Option<seq<ChatEvent>>)
      returns (r: Result<seq<ChatEvent>, PollError>)
      requires Valid()
      modifies this
      ensures Valid()
      ensures (State(), r) == Poll(old(State()), post, extract)
      ensures rooms == old(rooms) && fkey == old(fkey) && loggedIn == old(loggedIn) && cache == old(cache)
    {
      if cache.None? {
        return Err(NoPollBody);
      }
      var response := post(ReplaceAll(cache.value, EncodedPlaceholder, t));
      if response.None? {
        return Ok([]);
      }
      var cursor := FindCursor(response.value);
      if cursor.Some? {
        t := cursor.value;
      }
      if firstTime {
        firstTime := false;
        return Ok([]);
      }
      var events := extract(response.value);
      r := Ok(if events.Some? then events.value else []);
    }

    /** logout, corrected as the commented-out line of the source intends:
        leave every room of the set at once (the sandbox too), then the
        logout handshake. Gives the rooms left. */
    method Logout(handshakeOk: bool) returns (r: Result<seq<int>, AuthError>)
      requires Valid()
      modifies this
      ensures Valid()
      ensures !old(loggedIn) ==> r == Err(NotLoggedIn) && rooms == old(rooms) && cache == old(cache)
      ensures old(loggedIn) ==> rooms == [] && cache.Some? && CacheCurrent()
      ensures old(loggedIn) ==> (r.Ok? <==> handshakeOk) && (r.Err? ==> r.error == LogoutFailed)
      ensures loggedIn == (old(loggedIn) && !handshakeOk)
      ensures r.Ok? ==> r.value == old(rooms)
      ensures fkey == old(fkey) && t == old(t) && firstTime == old(firstTime)
    {
      if !loggedIn {
        return Err(NotLoggedIn);
      }
      LeaveAllAtLogout(rooms);
      var left := LeaveRoom(rooms, true);
      if !handshakeOk {
        return Err(LogoutFailed);
      }
      loggedIn := false;
      r := Ok(left);
    }
  }
}
