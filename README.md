# ChatBot core, modelled in Dafny

A model of the bookkeeping and string logic of a Stack Exchange chat bot
written in Java. The model covers four parts:

- **Command dispatcher** (`EventHandler`). It holds the builtin and learned
  command tables, which share one namespace of trimmed, lower-cased names.
  It reads a command line off a message: trigger, name, then arguments
  after the first space. It handles the "wave" easter egg and its
  `justWaved` latch, builds the `listcommands` message, and encodes the
  file names learned commands are saved under.
- **Per-site session** (`ChatIO`). It tracks the logged-in flag, the sorted
  set of joined rooms (room 1, the sandbox, is only left during logout) and
  the cached poll body. The poll body holds the fkey and one `r<id>` field
  per room, sorted by name and form-encoded. It also holds the poll cursor
  `t` and the `firstTime` latch that drops the first poll's backlog.
- **Event router** (`EventHandlerImpl`). A window of recently handled event
  ids drops duplicates; it is trimmed oldest-first once it holds more than
  30 ids. A routing table then decides per event type: run a command, fall
  back to evaluating the text of a mention, acknowledge a notification, or
  only log it.
- **Site registry** (`ChatBot`). It maps upper-cased site names to sessions
  and registers each site once. It checks a message's site and room before
  sending. It polls every site in turn and hands each event to the router
  in list order.

The supporting modules model the Java library behaviour these parts rely
on:

- `Text`: `String.trim`, ASCII case mapping, `split(" ", 2)`,
  `String.replace`, `Long.toString`.
- `Order`: `String.compareTo`, TreeMap/TreeSet iteration order, and
  `Collections.sort` as a stable insertion sort.
- `UrlCodec`: the form encoding of `Utils.urlencode` and `Utils.urldecode`.
  Utils is not part of this model; the two are assumed to be `URLEncoder`
  and `URLDecoder` with UTF-8, building `name=value&...` form bodies.

Modules, one file each:

| file | module |
|---|---|
| wrappers.dfy | Wrappers (Option, Result) |
| text.dfy | Text |
| order.dfy | Order |
| url_codec.dfy | UrlCodec |
| events.dfy | Events (ChatSite, EventType, ChatEvent) |
| commands.dfy | Commands (class EventHandler) |
| chat_io.dfy | Sessions (class ChatIO) |
| routing.dfy | Routing (class EventHandlerImpl) |
| chat_bot.dfy | Bot (class ChatBot) |

Things outside the process are parameters:

- the login and logout handshakes are booleans, and the scraped fkey is an
  `Option`;
- an HTTP POST is a function from body to `Option<response>`;
- the regular-expression extraction of events is a function from response
  to `Option<seq<ChatEvent>>`;
- the set of `ChatSite` names is a set of strings;
- the iteration order of the registry's HashMap is a sequence of keys.

## Model

| member | source | states |
|---|---|---|
| Commands.NormalizeIdempotent | src/chat/events/EventHandler.java:216 | Normalising an already trimmed, lower-cased name changes nothing, so a stored key is found again under its own name |
| Commands.WaveReply | src/chat/events/EventHandler.java:58-73 | A reply exists exactly when the trimmed content is "o/", "\o" or the waving-hand emoji with at most one skin-tone modifier; the reply is itself one of "o/", "\o" or the plain emoji |
| Commands.WaveAnswered | src/chat/events/EventHandler.java:61-66 | Every wave reply is answered in turn, and "o/" and "\o" answer each other, so answering twice gives the original back |
| Commands.StripReplyPrefix | src/chat/events/EventHandler.java:181-201 | The result is a suffix of the content; when anything is dropped, it is exactly ':' + digits + ' ' at the start |
| Commands.StripReplyPrefixOf | src/chat/events/EventHandler.java:181-201 | ":" + digits + " " + rest is read as rest |
| Commands.SterilizedReply | src/chat/events/EventHandler.java:185-209 | A reply ":<id> message" (message not ending in blanks) sterilises to the message alone |
| Commands.ParseCommandLine | src/chat/events/EventHandler.java:123-126 | For a name without spaces, trigger + name + " " + args is read as the normalised name and exactly args |
| Commands.ParseCommandAlone | src/chat/events/EventHandler.java:123-126 | For a name without spaces, trigger + name alone is read as the normalised name and empty arguments |
| Commands.Lookup | src/chat/events/EventHandler.java:127-147 | No command exactly when the name is neither builtin nor learned; a builtin name always yields the builtin; a learned command is only found for a non-builtin name |
| Commands.Run | src/chat/events/EventHandler.java:94-147 | Null content yields NoContent. A wave is answered exactly when the latch is off. A type other than message, mention or reply is unsupported. Otherwise a missing trigger throws (NullTrigger). A posted or edited message that is not a wave is ignored exactly when its sterilised content does not start with the trigger. A started command carries the parsed name and arguments and the command Lookup finds; an unknown name is in neither table |
| Commands.AppendNames | src/chat/events/EventHandler.java:311-319 | The ", " loops append the names joined by ", " to the message |
| Commands.CommandFileNameRoundTrip | src/chat/events/EventHandler.java:483-489 | Decoding a learned command's file name gives back its lower-cased name |
| Commands.CommandFileNameIsFlat | src/chat/events/EventHandler.java:257 | A command's file name holds no '/' and no '%', so it stays inside the commands directory |
| Commands.EventHandler.constructor | src/chat/events/EventHandler.java:81-83 | Starts with no learned commands, the given trigger and the latch off |
| Commands.EventHandler.Untriggered | src/chat/events/EventHandler.java:78-80 | The no-argument constructor: no learned commands, no trigger yet, the latch off |
| Commands.WaveReplyAsWritten | src/chat/events/EventHandler.java:46-48 | The wave test as the pattern is written: a reply exists exactly for "o/", "\o" and the plain emoji, and it is then the one WaveReply gives |
| Commands.SkinToneWaveAsWritten | src/chat/events/EventHandler.java:46-48 | The waving hand with skin tone U+1F3FD gets no reply as written, while WaveReply answers it with the plain emoji |
| Commands.EventHandler.SetTrigger | src/chat/events/EventHandler.java:211-214 | Sets the trigger, which is then present, and nothing else |
| Commands.EventHandler.PutCommand | src/chat/events/EventHandler.java:215-220 | Stores the text under the normalised name, replacing and returning any learned command of that name; keys stay normalised |
| Commands.EventHandler.AddCommand | src/chat/events/EventHandler.java:226-237 | Adds exactly when the normalised name is neither learned nor builtin; otherwise the table is unchanged; learned names never come to shadow a builtin |
| Commands.EventHandler.RemoveCommand | src/chat/events/EventHandler.java:243-254 | Removes exactly when the normalised name is learned; only the learned table changes, so builtins cannot be removed |
| Commands.EventHandler.Wave | src/chat/events/EventHandler.java:58-77 | Replies as WaveReply says; sets the latch on a wave and leaves it alone otherwise |
| Commands.EventHandler.ResetWave | src/chat/events/EventHandler.java:50-57 | The timer firing clears the latch and nothing else |
| Commands.EventHandler.RunCommand | src/chat/events/EventHandler.java:94-147 | Returns Run of the tables, trigger and latch before the call; the latch is set exactly by a wave; the tables and trigger do not change |
| Commands.EventHandler.ListCommands | src/chat/events/EventHandler.java:307-323 | The message is the header, the builtin names in sorted order, "\nLearned: ", then the learned names in sorted order or "none" |
| Order.LessTransitive | src/chat/io/ChatIO.java:377-383 | The compareTo order on names is transitive |
| Order.LessTotal | src/chat/io/ChatIO.java:377-383 | Any two different names are ordered one way or the other |
| Order.SortedSeqSpec | src/chat/events/EventHandler.java:309-310 | A key set iterates strictly increasing, once per element, with exactly the set's elements |
| Order.SortedUnique | src/chat/events/EventHandler.java:309-310 | Two strictly sorted sequences with the same elements are equal, so the iteration order is determined |
| Order.SortedNames | src/chat/events/EventHandler.java:309-310 | Listing a name set gives its sorted sequence |
| Order.SortByKey | src/chat/io/ChatIO.java:390 | Collections.sort by field name gives a sequence sorted by name that is a permutation of the input |
| Order.InsertIncreasing | src/chat/io/ChatIO.java:293-294 | Adding a room not yet joined keeps the set increasing and adds exactly that room |
| Order.Without | src/chat/io/ChatIO.java:313 | Removing a room keeps the set increasing and removes exactly that room |
| Text.SplitOnce | src/chat/events/EventHandler.java:123-126 | split(" ", 2): the head never holds the separator; there is a rest exactly when the separator occurs, and then head, separator and rest make up the input; otherwise the head is the whole input |
| UrlCodec.Utf8RoundTrip | src/chat/events/EventHandler.java:483-489 | Decoding the UTF-8 bytes of a string gives the string back |
| UrlCodec.DecodeEncode | src/chat/events/EventHandler.java:483-489 | URLDecoder reads back exactly what URLEncoder wrote, with upper- or lower-case escape digits |
| UrlCodec.EncodePlaceholder | src/chat/io/ChatIO.java:29-30 | The placeholder U+007F encodes to "%7F" |
| UrlCodec.SubstituteCursor | src/chat/io/ChatIO.java:182 | Replacing every "%7F" in a form body whose placeholder only appears as a whole value gives the body with the cursor as those values |
| Sessions.CacheFieldsShape | src/chat/io/ChatIO.java:384-392 | The poll body's fields are the fkey first, then one placeholder field per room, and nothing else |
| Sessions.RoomField | src/chat/io/ChatIO.java:388-389 | Every joined room has its r<id> placeholder field |
| Sessions.CacheFieldsClean | src/chat/io/ChatIO.java:386-389 | No field name holds the placeholder, and it appears only as a whole room value |
| Sessions.CollectEntries | src/chat/io/ChatIO.java:386-389 | The collected fields have pairwise different names, are exactly the fkey and room names, and carry their intended values |
| Sessions.SortedEntries | src/chat/io/ChatIO.java:390-391 | Any name-sorted permutation of the collected fields is the fields of the sorted name set |
| Sessions.PollBody | src/chat/io/ChatIO.java:182 | The body a poll sends is the form encoding of the fields with the cursor in every room field |
| Sessions.LeaveEffect | src/chat/io/ChatIO.java:309-328 | A room remains exactly when it was joined and was not asked for, or is the sandbox outside logout; a leave request goes out once for each room that no longer remains |
| Sessions.SandboxKept | src/chat/io/ChatIO.java:310-312 | Outside logout room 1 is never left and no leave request is sent for it |
| Sessions.LeaveAllAtLogout | src/chat/io/ChatIO.java:161 | During logout, leaving all rooms at once empties the set and sends one leave request per room, in increasing order |
| Sessions.FindCursor | src/chat/io/ChatIO.java:188 | A cursor found is a non-empty run of decimal digits |
| Sessions.CursorDigitsAt | src/chat/io/ChatIO.java:188 | The group of a match is a non-empty run of decimal digits |
| Sessions.CursorAtShift | src/chat/io/ChatIO.java:188 | A match in the response without its first character is a match one place later in the response |
| Sessions.FindCursorNone | src/chat/io/ChatIO.java:187-192 | No cursor is found exactly when the response holds no match of "t":\d+ (PollCursor states that the poll then keeps the old cursor) |
| Sessions.CursorAtLeftmost | src/chat/io/ChatIO.java:188 | The cursor found is the whole digit run of the leftmost match |
| Sessions.CursorFound | src/chat/io/ChatIO.java:188 | A response of the form p + "t": + digits + rest, with no match inside p and rest not starting with a digit, yields exactly those digits |
| Sessions.NoCursorWithoutQuote | src/chat/io/ChatIO.java:187-192 | A response with no quote character holds no match, so no cursor is found in it |
| Sessions.Poll | src/chat/io/ChatIO.java:178-219 | Fails exactly when no poll body was ever built. A failed request changes nothing. The cached body never changes. The cursor stays a decimal number. The first poll yields no events. Any events come with the old cursor or the one found in the response |
| Sessions.PollCursor | src/chat/io/ChatIO.java:185-192 | After a successful exchange, a response with no match of "t":\d+ leaves the cursor as it was, and otherwise the cursor becomes the digits of the leftmost match |
| Sessions.BacklogDroppedOnce | src/chat/io/ChatIO.java:182-211 | From a session not yet polled, a successful first exchange yields no events and ends the first-poll phase for good. The second poll is sent with the first response's cursor when it had one, and yields the events its own response gives |
| Sessions.LogoutAsWritten | src/chat/io/ChatIO.java:153-175 | Logout as written: the rooms left are a prefix of the room set and the rooms still joined are the rest |
| Sessions.LogoutAsWrittenStrands | src/chat/io/ChatIO.java:160 | With rooms {1, 2} and a working handshake, the written logout leaves room 1 only and stays logged in |
| Sessions.ChatIO.constructor | src/chat/io/ChatIO.java:31-36 | A session starts logged in, with no rooms, no poll body, cursor "0" and firstTime set |
| Sessions.ChatIO.Open | src/chat/io/ChatIO.java:53-70 | A session exists exactly when the login handshake and the fkey scrape both succeed; the error says which one failed; a new session is logged in, with no rooms, no poll body and cursor "0" |
| Sessions.ChatIO.IsInRoom | src/chat/io/ChatIO.java:336-339 | True exactly for a joined room |
| Sessions.ChatIO.UpdateCache | src/chat/io/ChatIO.java:384-393 | Rebuilds the poll body as the body for the current rooms and fkey; nothing else changes |
| Sessions.ChatIO.JoinRoom | src/chat/io/ChatIO.java:291-296 | The rooms afterwards are the old rooms plus the given ids; the poll body is current |
| Sessions.ChatIO.LeaveRoom | src/chat/io/ChatIO.java:297-331 | The rooms afterwards and the leave requests sent are those Leave gives; the poll body is current |
| Sessions.ChatIO.GetChatEvents | src/chat/io/ChatIO.java:176-220 | The new poll state and the result are those Poll gives; rooms, fkey, login and poll body do not change |
| Sessions.ChatIO.Logout | src/chat/io/ChatIO.java:153-175 | Fails with NotLoggedIn when logged out and changes nothing. Otherwise every room is left, the poll body is rebuilt, and the session is logged out exactly when the handshake succeeds |
| Routing.AdmitKeepsDistinct | src/chat/events/EventHandlerImpl.java:18-20 | A recorded id is in the window, and the window never holds an id twice |
| Routing.WindowBound | src/chat/events/EventHandlerImpl.java:15-20 | The window never holds more than 31 ids, all different |
| Routing.WindowOfDistinct | src/chat/events/EventHandlerImpl.java:18-20 | For distinct ids the window is exactly the last 31 of them, oldest first |
| Routing.WindowForgets | src/chat/events/EventHandlerImpl.java:15-20 | After 31 further distinct ids an id has left the window, while the next one is still in it |
| Routing.AckBodyWire | src/chat/events/EventHandlerImpl.java:68-70 | The acknowledgement body is "id=" and the message id in decimal |
| Routing.AckBodyInjective | src/chat/events/EventHandlerImpl.java:68-70 | Different messages get different acknowledgement bodies |
| Routing.AddressedFallback | src/chat/events/EventHandlerImpl.java:43-49 | Answered exactly when runCommand ran something. Not reached exactly when runCommand threw. Otherwise a crash exactly when content is missing or shorter than 2. An evaluated expression is non-empty and trimmed, and comes after a space in the content past its first two characters |
| Routing.FallbackEvaluates | src/chat/events/EventHandlerImpl.java:45-48 | A declined "xx" + word + " " + text evaluates the trimmed text, or nothing when that is blank |
| Routing.FallbackWithoutArguments | src/chat/events/EventHandlerImpl.java:45-47 | A declined mention with no space after its first word evaluates nothing |
| Routing.Dispatch | src/chat/events/EventHandlerImpl.java:24-101 | Posted and edited messages go to runCommand with no fallback; mentions and replies go to runCommand and then the fallback; exactly the two notification types are acknowledged; the nine printing types are only logged; commands never see an unsupported type |
| Routing.IgnoredTypes | src/chat/events/EventHandlerImpl.java:30-94 | The types with an empty case, and types without a case, are ignored |
| Routing.Steps | src/chat/bot/ChatBot.java:32-37 | The loop yields one action per event up to and including the first that throws, and none after it |
| Routing.StepsWindow | src/chat/events/EventHandlerImpl.java:15-20 | Handling a list of events from an empty window leaves the window of the ids of the events handled |
| Routing.StepsAfterHalt | src/chat/bot/ChatBot.java:32-37 | Once an action has thrown, the events after it change nothing |
| Routing.CrashEndsLoop | src/chat/events/EventHandlerImpl.java:43-49 | A mention shorter than two characters that runCommand declines throws in the fallback, and the loop handles no event after it |
| Routing.RepeatIsDuplicate | src/chat/events/EventHandlerImpl.java:15-16 | While the loop still runs, an event repeated after at most 30 other distinct events is dropped as a duplicate |
| Routing.EventHandlerImpl.constructor | src/chat/events/EventHandlerImpl.java:9-11 | Starts with an empty window and a command handler that has no trigger yet |
| Routing.EventHandlerImpl.Handle | src/chat/events/EventHandlerImpl.java:12-102 | The window, the wave latch and the action afterwards are those Step gives: a seen id changes nothing, any other is admitted and dispatched; the event's id is in the window afterwards |
| Bot.RegistrationBounds | src/chat/bot/ChatBot.java:21-27 | Registration only adds known, upper-cased names, and when it ends without error every given site is registered |
| Bot.RegisteredSitesSkipped | src/chat/bot/ChatBot.java:25-26 | Naming only registered sites registers nothing and cannot fail, whatever the handshakes would do |
| Bot.PollCycleFails | src/chat/bot/ChatBot.java:77-86 | A cycle fails exactly when a walked site has no poll body, and sites outside the walk keep their state |
| Bot.PollCycleErr | src/chat/bot/ChatBot.java:81-82 | A cycle fails exactly when some walked site never built its poll body |
| Bot.PollCycleUntouched | src/chat/bot/ChatBot.java:81-82 | Sites the walk does not reach keep their poll state |
| Bot.PollKeepsCache | src/chat/bot/ChatBot.java:81-82 | A cycle changes no site's cached poll body |
| Bot.FirstCycleSilent | src/chat/bot/ChatBot.java:77-86 | The first cycle over freshly joined sites yields no events |
| Bot.ChatBot.constructor | src/chat/bot/ChatBot.java:16-19 | Starts with no sessions and the given event handler |
| Bot.ChatBot.Register | src/chat/bot/ChatBot.java:21-27 | The keys afterwards and the error are those Registration gives; existing sessions are kept; each new one is fresh, logged in, in no room, with no poll body, cursor "0", the first poll still to come, and the fkey its login scraped |
| Bot.ChatBot.JoinRoom | src/chat/bot/ChatBot.java:53-58 | The site name is upper-cased. Without a session it is an error. Otherwise that session's rooms gain the ids, its poll body is built, its cursor, first-poll latch, fkey and login stay, and the other sessions do not change |
| Bot.ChatBot.LeaveRoom | src/chat/bot/ChatBot.java:59-64 | The site name is upper-cased. Without a session nothing changes. Otherwise the session's rooms become those Leave gives outside logout, so the sandbox stays; its poll body is built; its cursor, first-poll latch, fkey and login stay; the other sessions do not change |
| Bot.ChatBot.PutMessage | src/chat/bot/ChatBot.java:65-76 | Sends exactly when the site, taken as given, has a session that is in the room. Otherwise the error says which check failed. A name that is not upper-case never finds its session |
| Bot.ChatBot.SetTrigger | src/chat/bot/ChatBot.java:49-52 | Sets the handler's trigger and leaves its learned commands and its wave latch alone |
| Bot.ChatBot.PollSite | src/chat/bot/ChatBot.java:81-82 | One site's poll changes only that site's poll state, as Poll says; every session keeps its rooms, fkey and login |
| Bot.ChatBot.GetAllChatEvents | src/chat/bot/ChatBot.java:77-86 | The poll states and the result are those PollCycle gives for the walk order; every session keeps its rooms, fkey and login |
| Bot.ChatBot.HandleEvents | src/chat/bot/ChatBot.java:32-37 | Handing the events to the router in list order, stopping at the first exception, gives the window, latch and actions of Steps |
| Bot.ChatBot.PollOnce | src/chat/bot/ChatBot.java:32-37 | One turn of the poll thread: the poll states and the events are those PollCycle gives; a failed poll handles nothing; otherwise the router ends as Steps says; the thread stops exactly when the poll failed or an action threw; every session keeps its rooms, fkey and login |

## Left out

- Threads and timers are not modelled:
  - the 30-second command countdown and the command's own thread;
  - the wave timer, which is the ResetWave method here;
  - the user-id polling thread and the shutdown hook of ChatIO;
  - the poll loop's sleep and garbage collection.
  All operations are sequential and atomic; `synchronized` blocks and locks are not modelled.
- File persistence is not modelled: command files, room files, properties and the reload-from-disk initialiser. Only the file-name encoding is.
- The HTTP layer (WebRequest) and the bodies of the login and logout handshakes are not part of this model. Their outcomes are parameters.
- The other ChatIO send methods (putMessage, editMessage, inviteUser, bookmarkConversation, changeBotAboutText, getUserInfo) are not modelled. ChatBot.putMessage yields the message it would send as an Outgoing value.
- Regular-expression scraping of the fkey, the user id and the event arrays is not modelled. The event extraction is a parameter; the cursor pattern is modelled as FindCursor.
- The collaborators MicroAssembler, Utils.eval, Utils.getWotd and ChatEventList parsing are not part of this model. A started command is reported, not run. An evaluated expression is reported as Evaluate.
- Commands.EventHandler.RunCommand: states what the command would start; what the builtin commands do once started is not modelled.
- Stack-trace inspection in leaveRoom is not modelled; it is the explicit isLogout parameter.
- ChatBot calls addRoom and removeRoom on ChatIO, which defines joinRoom and leaveRoom; the model binds them to the latter.
- The static chatio map of ChatBot and the static recentevents vector of EventHandlerImpl are modelled as fields of one instance. EventHandlerImpl holds its EventHandler as a field instead of extending it.
- Bot.ChatBot.GetAllChatEvents: the HashMap's iteration order is not modelled; it is a parameter, a duplicate-free listing of the registered sites.
- Bot.PollCycleErr: a site that never joined a room has no poll body, and `replace` on it throws a NullPointerException. Nothing in the poll thread catches it, so it ends the thread for good. This is modelled as the NoPollBody error, and PollOnce reports it as stopping the thread.
- Bot.ChatBot.PollOnce: models one turn of the poll thread's endless loop. The loop itself, its sleep and the thread's death are not modelled; `stops` says when the thread would die.
- Bot.ChatBot.HandleEvents: an exception from handle (a missing trigger, an unsupported type, or the substring at src/chat/events/EventHandlerImpl.java:45) is not caught. The model stops handling at the first such action instead of unwinding.
- Routing.EventHandlerImpl.constructor: EventHandlerImpl declares no constructor, so its handler's trigger is null until setTrigger runs, and every message or mention throws until then. The model keeps this as the NullTrigger outcome.
- The builtin commands read from basic_commands.properties (src/chat/events/EventHandler.java:440-453) are not modelled; the builtin table holds the hard-coded names only.
- Utils.search is not part of this model. It is assumed to return group 1 of the leftmost match of the pattern and to throw IllegalArgumentException when there is none, which the catch in getChatEvents relies on; FindCursor and PollCursor rest on that assumption.
- Utils.urlencode, Utils.urldecode and the form-body urlencode are not part of this model. They are assumed to be URLEncoder and URLDecoder with UTF-8 and `name=value&...` bodies. CommandFileNameRoundTrip, CommandFileNameIsFlat, PollBody and SubstituteCursor rest on that assumption.
- UrlCodec.Decode: returns None on malformed UTF-8 or a bad escape, where URLDecoder substitutes U+FFFD for malformed UTF-8. Only decoding of the encoder's own output is used in this model.
- Case mapping is ASCII only, and characters are Unicode scalar values, not UTF-16 code units. So compareTo on characters outside the Basic Multilingual Plane can order differently from Java.
- Room, event and message ids are unbounded integers; 64-bit overflow is not modelled.
- recentevents is created with capacity 30 (src/chat/events/EventHandlerImpl.java:11), but the code trims only when it already holds more than 30 ids (lines 18-20), so it can hold 31; the model follows the code.
- leaveRoom returns void in the source; the model also returns the rooms a leave request was sent for.
- Failures of the leave POST inside leaveRoom are only printed in the source. The model treats every leave request as sent.

## Findings

| source | as written | input that shows it | evidently intended | confidence | as-written member | corrected member |
|---|---|---|---|---|---|---|
| src/chat/io/ChatIO.java:160 | logout walks the live room set with forEach while leaveRoom removes from it. After the first room is left, the set's fail-fast iterator throws ConcurrentModificationException; logout reports it as a failed logout and stays logged in | rooms {1, 2}, logout handshake succeeding | leave every joined room, as the commented-out line 161 does, then log out | not executed | Sessions.LogoutAsWrittenStrands | Sessions.ChatIO.Logout |
| src/chat/events/EventHandler.java:46-48 | the skin-tone part of the wave pattern is a lone high surrogate followed by a class of lone low surrogates. Java matches by code point, so the surrogate pair of a skin tone never matches it, and only the plain emoji is answered | the waving hand followed by U+1F3FD | the optional skin-tone modifier is accepted, and the plain emoji is sent back | not executed | Commands.SkinToneWaveAsWritten | Commands.WaveReply |
