/** The command dispatcher of EventHandler: the builtin and learned command
    tables sharing one namespace, the wave easter egg and its latch, the
    reading of a command line off a message, the listcommands message and
    the file names learned commands are saved under. */
module Commands {
  import opened Wrappers
  import opened Text
  import opened Order
  import opened UrlCodec
  import opened Events

  /** The handlers behind the builtin command names. */
  datatype Builtin =
    | ListCommands | Assemble | Learn | Unlearn | JoinRooms | LeaveRooms
    | RollDice | Fibonacci | Rand | Eval | RoomLink | WordOfTheDay

  /** A command: a builtin handler, or a learned command's template text. */
  datatype Command = Native(kind: Builtin) | Learned(text: string)

  /** The hard-coded part of the builtin table the instance initialiser
      fills; the names it adds from basic_commands.properties are not part
      of this model. */
  const Builtins: map<string, Builtin> := map[
    "help" := ListCommands, "list" := ListCommands, "listcommands" := ListCommands,
    "asm" := Assemble, "learn" := Learn, "unlearn" := Unlearn,
    "joinroom" := JoinRooms, "leaveroom" := LeaveRooms, "rolldice" := RollDice,
    "fibonacci" := Fibonacci, "rand" := Rand, "eval" := Eval,
    "room" := RoomLink, "wotd" := WordOfTheDay]

  /** name.trim().toLowerCase(): the form every table key takes. */
  function Normalize(name: string): string
  {
    Lower(Trim(name))
  }

  lemma NormalizeIdempotent(name: string)
    ensures Normalize(Normalize(name)) == Normalize(name)
  {
    TrimLower(Trim(name));
    TrimIdempotent(name);
    LowerIdempotent(Trim(name));
  }

  /* ---------------------------------------------------------------- wave */

  const WaveRight: string := "o/"
  const WaveLeft: string := "\\o"
  const WaveEmoji: char := '\U{1F44B}'

  /** The five Fitzpatrick skin-tone modifiers. */
  predicate IsSkinTone(c: char) { '\U{1F3FB}' <= c <= '\U{1F3FF}' }

  /** The whole text is the waving-hand emoji, with at most one skin tone. */
  predicate IsWaveEmoji(s: string)
  {
    |s| >= 1 && s[0] == WaveEmoji && (|s| == 1 || (|s| == 2 && IsSkinTone(s[1])))
  }

  /** The reply wave() posts for trimmed content, or None when the content
      is not a wave. */
  function WaveReply(content: string): (r: Option<string>)
    ensures r.Some? <==> content == WaveRight || content == WaveLeft || IsWaveEmoji(content)
    ensures r.Some? ==> r.value == WaveRight || r.value == WaveLeft || r.value == [WaveEmoji]
  {
    if content == WaveRight then Some(WaveLeft)
    else if content == WaveLeft then Some(WaveRight)
    else if IsWaveEmoji(content) then Some([WaveEmoji])
    else None
  }

  /** The emoji test as the regular expression is written: its skin-tone
      part is a lone high surrogate followed by a class of lone low
      surrogates, and java.util.regex compares code points, so a skin-toned
      emoji (one code point after the hand) never matches and only the
      plain hand is a wave. */
  predicate IsWaveEmojiAsWritten(s: string)
  {
    s == [WaveEmoji]
  }

  /** wave() with the emoji test as written. */
  function WaveReplyAsWritten(content: string): (r: Option<string>)
    ensures r.Some? <==> content == WaveRight || content == WaveLeft || content == [WaveEmoji]
    ensures r.Some? ==> r == WaveReply(content)
  {
    if content == WaveRight then Some(WaveLeft)
    else if content == WaveLeft then Some(WaveRight)
    else if IsWaveEmojiAsWritten(content) then Some([WaveEmoji])
    else None
  }

  /** A skin-toned wave goes unanswered as written, and is answered with
      the plain hand as intended. */
  lemma SkinToneWaveAsWritten()
    ensures WaveReplyAsWritten([WaveEmoji, '\U{1F3FD}']) == None
    ensures WaveReply([WaveEmoji, '\U{1F3FD}']) == Some([WaveEmoji])
  {
    assert IsWaveEmoji([WaveEmoji, '\U{1F3FD}']);
  }

  /** Every reply is a wave in turn, and a hand wave answered twice comes
      back as itself. */
  lemma WaveAnswered(content: string)
    requires WaveReply(content).Some?
    ensures WaveReply(WaveReply(content).value).Some?
    ensures content == WaveRight || content == WaveLeft ==>
              WaveReply(WaveReply(content).value) == Some(content)
  {
    var r := WaveReply(content).value;
    if r == [WaveEmoji] {
      assert IsWaveEmoji(r);
    }
  }

  /* ------------------------------------------------------ message content */

  /** Matcher.replaceFirst("") for the pattern ^:\d+ followed by a space:
      drops a leading reply marker ":<digits> " and nothing else. */
  function StripReplyPrefix(c: string): (r: string)
    ensures |r| <= |c| && r == c[|c| - |r|..]
    ensures r != c ==>
              var n := |c| - |r|;
              n >= 3 && c[0] == ':' && IsDigits(c[1..n - 1]) && c[n - 1] == ' '
  {
    if |c| > 0 && c[0] == ':' then
      var n := DigitRun(c[1..]);
      if n > 0 && n + 1 < |c| && c[n + 1] == ' ' then
        assert c[1..][..n] == c[1..n + 1];
        c[n + 2..]
      else c
    else c
  }

  lemma StripReplyPrefixOf(d: string, rest: string)
    requires d != [] && IsDigits(d)
    ensures StripReplyPrefix(":" + d + " " + rest) == rest
  {
    var c := ":" + d + " " + rest;
    assert c[1..] == d + (" " + rest);
    DigitRunOf(d, " " + rest);
    assert c[|d| + 1] == ' ';
    assert c[|d| + 2..] == rest;
  }

  /** getSterilizedContent: the trimmed content, and for a reply also
      without its leading reply marker. */
  function SterilizedContent(eventType: EventType, content: string): string
  {
    var c := Trim(content);
    if eventType == MessageReply then StripReplyPrefix(c) else c
  }

  /** A reply ":<id> message" is read as the message alone. */
  lemma SterilizedReply(d: string, message: string)
    requires d != [] && IsDigits(d)
    requires message != [] && !IsBlank(message[|message| - 1])
    ensures SterilizedContent(MessageReply, ":" + d + " " + message) == message
  {
    var c := ":" + d + " " + message;
    assert c[0] == ':' && c[|c| - 1] == message[|message| - 1];
    TrimOfTrimmed(c);
    StripReplyPrefixOf(d, message);
  }

  /** The command name and the argument string runCommand reads off
      sterilised content: the trigger is dropped when present, the rest is
      split at its first space, the name normalised, and the arguments are
      "" when there is no space. */
  function ParseCommand(content: string, trigger: string): (string, string)
  {
    var body := if trigger <= content then content[|trigger|..] else content;
    var (head, rest) := SplitOnce(body, ' ');
    (Normalize(head), if rest.Some? then rest.value else "")
  }

  /** A command line written as trigger, name, space, arguments is read
      back as the normalised name and the arguments. */
  lemma ParseCommandLine(trigger: string, name: string, args: string)
    requires ' ' !in name
    ensures ParseCommand(trigger + name + " " + args, trigger) == (Normalize(name), args)
  {
    var content := trigger + name + " " + args;
    assert content[..|trigger|] == trigger;
    assert content[|trigger|..] == name + [' '] + args;
    SplitOnceAt(name, ' ', args);
  }

  lemma ParseCommandAlone(trigger: string, name: string)
    requires ' ' !in name
    ensures ParseCommand(trigger + name, trigger) == (Normalize(name), "")
  {
    var content := trigger + name;
    assert content[..|trigger|] == trigger;
    assert content[|trigger|..] == name;
  }

  /** The command table lookup: builtin names first, then learned ones. */
  function Lookup(learned: map<string, string>, name: string): (r: Option<Command>)
    ensures r.None? <==> name !in Builtins && name !in learned
    ensures name in Builtins ==> r == Some(Native(Builtins[name]))
    ensures r.Some? && r.value.Learned? ==>
              name !in Builtins && name in learned && r.value.text == learned[name]
  {
    if name in Builtins then Some(Native(Builtins[name]))
    else if name in learned then Some(Learned(learned[name]))
    else None
  }

  /* ---------------------------------------------------------- runCommand */

  /** What runCommand does with an event. Waved and Started are the cases in
      which it returns true; Unsupported is the UnsupportedOperationException
      it throws for event types it has no case for, and NullTrigger the
      NullPointerException startsWith throws while no trigger is set. */
  datatype RunOutcome =
    | NoContent
    | Waved(reply: string)
    | NotTriggered
    | Unsupported(eventType: EventType)
    | NullTrigger
    | UnknownCommand(name: string)
    | Started(name: string, args: string, command: Command)
  {
    predicate Ran() { Waved? || Started? }

    /** runCommand ends with an exception instead of returning. */
    predicate Throws() { Unsupported? || NullTrigger? }
  }

  predicate IsMessageEvent(t: EventType) { t == MessagePosted || t == MessageEdited }

  predicate IsAddressedEvent(t: EventType) { t == UserMentioned || t == MessageReply }

  /** runCommand on an event, given the command tables, the trigger (None
      until one is set) and the wave latch. */
  function Run(learned: map<string, string>, trigger: Option<string>, justWaved: bool, e: ChatEvent): (r: RunOutcome)
    ensures r == NoContent <==> e.content.None?
    ensures r.Waved? ==> !justWaved && WaveReply(Trim(e.content.value)) == Some(r.reply)
    ensures !justWaved && e.content.Some? && WaveReply(Trim(e.content.value)).Some? ==> r.Waved?
    ensures r.Unsupported? <==>
              e.content.Some? && !r.Waved? && !IsMessageEvent(e.eventType) && !IsAddressedEvent(e.eventType)
    ensures r.NullTrigger? <==>
              e.content.Some? && !r.Waved? && (IsMessageEvent(e.eventType) || IsAddressedEvent(e.eventType))
              && trigger.None?
    ensures e.content.Some? && IsMessageEvent(e.eventType) && trigger.Some? && !r.Waved? ==>
              (r.NotTriggered? <==> !(trigger.value <= SterilizedContent(e.eventType, e.content.value)))
    ensures r.NotTriggered? ==> IsMessageEvent(e.eventType) && trigger.Some?
    ensures r.Started? || r.UnknownCommand? ==>
              e.content.Some? && (IsMessageEvent(e.eventType) || IsAddressedEvent(e.eventType)) && trigger.Some?
    ensures r.Started? ==>
              ParseCommand(SterilizedContent(e.eventType, e.content.value), trigger.value) == (r.name, r.args)
              && Lookup(learned, r.name) == Some(r.command)
    ensures r.UnknownCommand? ==>
              ParseCommand(SterilizedContent(e.eventType, e.content.value), trigger.value).0 == r.name
              && r.name !in Builtins && r.name !in learned
  {
    if e.content.None? then NoContent
    else
      var wave := WaveReply(Trim(e.content.value));
      if !justWaved && wave.Some? then Waved(wave.value)
      else
        var c := SterilizedContent(e.eventType, e.content.value);
        if !IsMessageEvent(e.eventType) && !IsAddressedEvent(e.eventType) then Unsupported(e.eventType)
        else if trigger.None? then NullTrigger
        else if IsMessageEvent(e.eventType) && !(trigger.value <= c) then NotTriggered
        else
          var (name, args) := ParseCommand(c, trigger.value);
          match Lookup(learned, name)
          case None => UnknownCommand(name)
          case Some(cmd) => Started(name, args, cmd)
  }

  /* ------------------------------------------------------- listcommands */

  /** Names joined with ", ", as the listcommands loops build them. */
  function JoinNames(names: seq<string>): string
  {
    if |names| == 0 then ""
    else if |names| == 1 then names[0]
    else JoinNames(names[..|names| - 1]) + ", " + names[|names| - 1]
  }

  const ListHeader: string := "Available commands:\nBuiltin: "

  /** The listcommands message for the builtin and the learned names, each
      in the order they are listed. */
  function ListMessage(builtin: seq<string>, learned: seq<string>): string
  {
    ListHeader + JoinNames(builtin) + "\nLearned: "
      + (if learned == [] then "none" else JoinNames(learned))
  }

  /** Appends ", " + names[i] for i in [from, |names|), as the loops do. */
  method AppendNames(message: string, names: seq<string>) returns (r: string)
    requires |names| > 0
    ensures r == message + JoinNames(names)
  {
    r := message + names[0];
    assert names[..1] == [names[0]];
    for i := 1 to |names|
      invariant r == message + JoinNames(names[..i])
    {
      assert names[..i + 1][..i] == names[..i];
      r := r + ", " + names[i];
    }
    assert names[..|names|] == names;
  }

  /* ------------------------------------------------------ command files */

  /** urlencode_cmd: the file name a learned command is saved under. */
  function CommandFileName(name: string): string
  {
    ReplaceChar(Encode(Lower(name)), '%', 'P')
  }

  /** urldecode_cmd: the command name read back from a file name; None when
      the name holds a malformed escape. */
  function CommandOfFileName(file: string): Option<string>
  {
    Decode(Lower(ReplaceChar(file, 'P', '%')))
  }

  /** Reading a command's file name gives back its lower-cased name. */
  lemma CommandFileNameRoundTrip(name: string)
    ensures CommandOfFileName(CommandFileName(name)) == Some(Lower(name))
  {
    var s := Lower(name);
    LowerHasNoUpperCase(name);
    EncodeHasNoP(s);
    ReplaceCharBack(Encode(s), '%', 'P');
    LowerOfEncode(s);
    DecodeEncode(s, false);
  }

  /** A command's file name stays inside the commands directory and holds
      no escape character. */
  lemma CommandFileNameIsFlat(name: string)
    ensures '/' !in CommandFileName(name) && '%' !in CommandFileName(name)
  {
    var e := Encode(Lower(name));
    EncodeHasNoSlash(Lower(name));
    assert forall i :: 0 <= i < |e| ==> e[i] != '/';
  }

  /* ------------------------------------------------------------- handler */

  /** The mutable part of EventHandler: the learned commands, the trigger
      and the wave latch. */
  class EventHandler {
    var learned: map<string, string>
    var trigger: Option<string>
    var justWaved: bool

    /** Every learned name is stored normalised. */
    ghost predicate Valid()
      reads this
    {
      forall name :: name in learned ==> Normalize(name) == name
    }

    constructor(trigger: string)
      ensures Valid()
      ensures learned == map[] && this.trigger == Some(trigger) && !justWaved
    {
      learned := map[];
      this.trigger := Some(trigger);
      justWaved := false;
    }

    /** The constructor without a trigger: none is set until SetTrigger. */
    constructor Untriggered()
      ensures Valid()
      ensures learned == map[] && trigger == None && !justWaved
    {
      learned := map[];
      trigger := None;
      justWaved := false;
    }

    method SetTrigger(trigger: string)
      modifies this
      ensures this.trigger == Some(trigger)
      ensures learned == old(learned) && justWaved == old(justWaved)
    {
      this.trigger := Some(trigger);
    }

    /** putCommand: stores the text under the normalised name, replacing
      any learned command of that name, and returns the one replaced. */
    method PutCommand(name: string, text: string) returns (previous: Option<string>)
      requires Valid()
      modifies this
      ensures Valid()
      ensures learned == old(learned)[Normalize(name) := text]
      ensures previous == if Normalize(name) in old(learned) then Some(old(learned)[Normalize(name)]) else None
      ensures trigger == old(trigger) && justWaved == old(justWaved)
    {
      var key := Normalize(name);
      previous := if key in learned then Some(learned[key]) else None;
      learned := learned[key := text];
      NormalizeIdempotent(name);
    }

    /** addCommand: learns the command unless its normalised name is taken,
      by a builtin or a learned command. */
    method AddCommand(name: string, text: string) returns (added: bool)
      requires Valid()
      modifies this
      ensures Valid()
      ensures added <==> Normalize(name) !in old(learned) && Normalize(name) !in Builtins
      ensures learned == if added then old(learned)[Normalize(name) := text] else old(learned)
      ensures old(learned.Keys !! Builtins.Keys) ==> learned.Keys !! Builtins.Keys
      ensures trigger == old(trigger) && justWaved == old(justWaved)
    {
      var key := Normalize(name);
      added := !(key in learned || key in Builtins);
      if added {
        var _ := PutCommand(key, text);
        NormalizeIdempotent(name);
      }
    }

    /** removeCommand: forgets a learned command; builtins are never in the
      learned table, so they cannot be removed. */
    method RemoveCommand(name: string) returns (removed: bool)
      requires Valid()
      modifies this
      ensures Valid()
      ensures removed <==> Normalize(name) in old(learned)
      ensures learned == old(learned) - {Normalize(name)}
      ensures old(learned.Keys !! Builtins.Keys) ==> learned.Keys !! Builtins.Keys
      ensures trigger == old(trigger) && justWaved == old(justWaved)
    {
      var key := Normalize(name);
      removed := key in learned;
      learned := learned - {key};
    }

    /** wave: answers a wave and sets the latch; any other content leaves
      the latch as it was. */
    method Wave(content: string) returns (reply: Option<string>)
      modifies this
      ensures reply == WaveReply(Trim(content))
      ensures justWaved == (old(justWaved) || reply.Some?)
      ensures learned == old(learned) && trigger == old(trigger)
    {
      reply := WaveReply(Trim(content));
      if reply.Some? {
        justWaved := true;
      }
    }

    /** The wave timer firing: waves are answered again. */
    method ResetWave()
      modifies this
      ensures !justWaved
      ensures learned == old(learned) && trigger == old(trigger)
    {
      justWaved := false;
    }

    /** runCommand, up to starting the command's thread. */
    method RunCommand(event: ChatEvent) returns (outcome: RunOutcome)
      modifies this
      ensures outcome == Run(old(learned), old(trigger), old(justWaved), event)
      ensures justWaved == (old(justWaved) || outcome.Waved?)
      ensures learned == old(learned) && trigger == old(trigger)
    {
      if event.content.None? {
        return NoContent;
      }
      if !justWaved {
        var reply := Wave(event.content.value);
        if reply.Some? {
          return Waved(reply.value);
        }
      }
      var content := SterilizedContent(event.eventType, event.content.value);
      if !IsMessageEvent(event.eventType) && !IsAddressedEvent(event.eventType) {
        return Unsupported(event.eventType);
      }
      if trigger.None? {
        return NullTrigger;
      }
      if IsMessageEvent(event.eventType) && !(trigger.value <= content) {
        return NotTriggered;
      }
      var (name, args) := ParseCommand(content, trigger.value);
      if name in Builtins {
        outcome := Started(name, args, Native(Builtins[name]));
      } else if name in learned {
        outcome := Started(name, args, Learned(learned[name]));
      } else {
        outcome := UnknownCommand(name);
      }
    }

    /** The listcommands message: the builtin and the learned names, each
      in sorted order, with "none" when nothing is learned. */
    method ListCommands() returns (message: string)
      ensures message == ListMessage(SortedSeq(Builtins.Keys), SortedSeq(learned.Keys))
    {
      var builtin := SortedNames(Builtins.Keys);
      var names := SortedNames(learned.Keys);
      assert "help" in Builtins;
      message := AppendNames(ListHeader, builtin);
      message := message + "\nLearned: ";
      if |names| > 0 {
        message := AppendNames(message, names);
      } else {
        message := message + "none";
      }
    }
  }
}
