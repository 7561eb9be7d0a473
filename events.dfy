/** The events a chat site delivers to the bot. */
module Events {
  import opened Wrappers

  /** A chat site, named by its ChatSite constant (STACKOVERFLOW, ...). */
  datatype ChatSite = ChatSite(name: string)

  /** The event types the router distinguishes; every other type code is
      OtherEvent. */
  datatype EventType =
    | MessagePosted | MessageEdited | UserEntered | UserLeft | RoomNameChanged
    | MessageStarred | DebugMessage | UserMentioned | MessageFlagged
    | MessageDeleted | FileAdded | ModeratorFlag | UserSettingsChanged
    | GlobalNotification | AccessLevelChanged | UserNotification | Invitation
    | MessageReply | MessageMovedOut | MessageMovedIn | TimeBreak | FeedTicker
    | UserSuspended | UserMerged | UserNameOrAvatarChanged | OtherEvent

  /** The fields of a ChatEvent the core reads; content is null (None) for
      events that carry no message text. */
  datatype ChatEvent = ChatEvent(
    id: int,
    eventType: EventType,
    site: ChatSite,
    roomId: int,
    messageId: int,
    content: Option<string>)
}
