/** What posting, approving and moderating do to a room: the rules as functions of values. */
module ChatRules {
  import opened Options
  import opened ChatMessages

  const MAX_BODY_SIZE := 1024

  /** Whether a string is a well-formed NTIID. */
  type NtiidCheck = string -> bool

  datatype Moderation = Moderation(
    moderators: set<Name>,
    shadowed: set<Name>,
    queue: map<MessageId, Message>)

  datatype Room = Room(
    occupants: set<Name>,
    historical: set<Name>,
    transcripts: set<Name>,
    moderation: Option<Moderation>,
    messageCount: nat,
    active: bool)

  /** False, True or 1, the exception for a body that is too big, or the absence of a result. */
  datatype Result = Refused | Accepted | AcceptedAndCounted | TooBig | Nothing

  /** A room after a message was handled, the message as left behind, and what was sent. */
  datatype Outcome = Outcome(
    room: Room,
    message: Message,
    sent: multiset<Delivery>,
    notices: seq<Notice>,
    result: Result)

  function Unchanged(r: Room, m: Message, result: Result): Outcome
  {
    Outcome(r, m, multiset{}, [], result)
  }

  function Moderators(r: Room): set<Name>
  {
    if r.moderation.None? then {} else r.moderation.value.moderators
  }

  // ---------- Posting without moderation ----------

  predicate LikeDefaultChannel(m: Message)
  {
    ChannelOf(m) == DEFAULT || RecipientsWithoutSender(m) == {} || ChannelOf(m) == STATE
  }

  function RecipientNames(r: Room, m: Message): (names: set<Name>)
    ensures names <= r.occupants
  {
    if LikeDefaultChannel(m) then r.occupants else r.occupants * RecipientsWithSender(m)
  }

  /** Moderators do not count when deciding whether a message goes to everyone. */
  predicate IsToAllOccupants(r: Room, m: Message)
  {
    LikeDefaultChannel(m) || RecipientNames(r, m) == r.occupants - Moderators(r)
  }

  predicate ConformsToLimits(r: Room, m: Message)
  {
    m.sender in Moderators(r) || BodyLength(m.body) <= MAX_BODY_SIZE
  }

  /** Deliver a message to its recipients. */
  function Deliver(r: Room, m: Message): Outcome
  {
    if !ConformsToLimits(r, m) then Unchanged(r, m, TooBig)
    else
      var names := RecipientNames(r, m);
      var shared := names + r.transcripts + {m.sender};
      Outcome(
        r,
        m.(status := Posted, sharedWith := shared),
        ToAll(Received, names, m.id),
        [Notice(m.id, shared)],
        if IsToAllOccupants(r, m) then AcceptedAndCounted else Accepted)
  }

  /** Presence states go to everyone and leave no trace. */
  function DeliverState(r: Room, m: Message): Outcome
  {
    if !m.body.Mapping? then Unchanged(r, m, Refused)
    else
      var state := Lookup(m.body.fields, "state");
      if state.None? || state.value !in {"active", "composing", "paused", "inactive", "gone"} then
        Unchanged(r, m, Refused)
      else
        var sanitized := m.(body := Mapping([("state", state.value)]));
        Outcome(r, sanitized, ToAll(Received, RecipientNames(r, sanitized), m.id), [], Accepted)
  }

  /** The posting rules that moderated and unmoderated rooms share. */
  function PostBasic(r: Room, m: Message): Outcome
  {
    match ChannelOf(m)
    case Unknown(_) => Unchanged(r, m, Refused)
    case STATE => DeliverState(r, m)
    case DEFAULT => Deliver(r, m)
    case WHISPER => Deliver(r, m)
    case _ => if r.moderation.None? then Unchanged(r, m, Refused) else Deliver(r, m)
  }

  // ---------- Posting under moderation ----------

  /** The handlers that pass a message on answer True whatever the passing on answered; the exception
      for a big body still escapes. */
  function AnswerTrue(o: Outcome): Outcome
  {
    if o.result == TooBig then o else o.(result := Accepted)
  }

  function Hold(r: Room, m: Message): Outcome
    requires r.moderation.Some?
  {
    if !ConformsToLimits(r, m) then Unchanged(r, m, Refused)
    else
      var held := m.(status := Pending);
      var mod := r.moderation.value;
      Outcome(
        r.(moderation := Some(mod.(queue := mod.queue[m.id := held]))),
        held,
        ToAll(ForModeration, mod.moderators, m.id),
        [],
        Accepted)
  }

  predicate MayWhisper(mod: Moderation, m: Message)
  {
    || m.sender in mod.moderators
    || RecipientsWithoutSender(m) <= mod.moderators
    || |RecipientsWithoutSender(m)| == 1
  }

  /** Moderators see what is whispered to or by shadowed users. */
  function Shadow(r: Room, m: Message): Outcome
    requires r.moderation.Some?
  {
    var mod := r.moderation.value;
    if mod.shadowed * RecipientsWithSender(m) == {} then Unchanged(r, m, Accepted)
    else
      Outcome(
        r,
        m.(status := Shadowed),
        ToAll(ForShadow, mod.moderators, m.id),
        [Notice(m.id, mod.moderators)],
        Accepted)
  }

  function PostWhisper(r: Room, m: Message): Outcome
    requires r.moderation.Some?
  {
    if IsToAllOccupants(r, m) && |RecipientsWithoutSender(m)| > 1 then Hold(r, m)
    else if MayWhisper(r.moderation.value, m) then
      var shadow := Shadow(r, m);
      var post := AnswerTrue(PostBasic(r, shadow.message));
      post.(sent := shadow.sent + post.sent, notices := shadow.notices + post.notices)
    else Unchanged(r, m, Nothing)
  }

  function PostContent(r: Room, valid: NtiidCheck, m: Message): Outcome
  {
    if !m.body.Mapping? then Unchanged(r, m, Refused)
    else
      var ntiid := Lookup(m.body.fields, "ntiid");
      if ntiid.None? || !valid(ntiid.value) then Unchanged(r, m, Refused)
      else AnswerTrue(PostBasic(r, m.(body := Mapping([("ntiid", ntiid.value)]), recipients := multiset{})))
  }

  const CHANNEL_NAMES := {"DEFAULT", "WHISPER", "CONTENT", "POLL", "META", "STATE"}

  function PostMeta(r: Room, valid: NtiidCheck, m: Message): Outcome
  {
    if !m.body.Mapping? then Unchanged(r, m, Refused)
    else
      var channel, action := Lookup(m.body.fields, "channel"), Lookup(m.body.fields, "action");
      if channel.None? || channel.value !in CHANNEL_NAMES || action.None? || action.value !in {"pin", "clearPinned"}
      then Unchanged(r, m, Refused)
      else
        var broadcast := m.(recipients := multiset{});
        var target := [("channel", channel.value), ("action", action.value)];
        if action.value == "pin" then
          var ntiid := Lookup(m.body.fields, "ntiid");
          if ntiid.None? || !valid(ntiid.value) then Unchanged(r, broadcast, Refused)
          else AnswerTrue(PostBasic(r, broadcast.(body := Mapping(target + [("ntiid", ntiid.value)]))))
        else AnswerTrue(PostBasic(r, broadcast.(body := Mapping(target))))
  }

  /** Posting in a moderated room: a rule for each channel. */
  function PostModerated(r: Room, valid: NtiidCheck, m: Message): Outcome
    requires r.moderation.Some?
  {
    var fromModerator := m.sender in r.moderation.value.moderators;
    match ChannelOf(m)
    case Unknown(_) => Unchanged(r, m, Refused)
    case STATE => Unchanged(r, m, Accepted)
    case DEFAULT => if fromModerator then AnswerTrue(PostBasic(r, m)) else Hold(r, m)
    case WHISPER => if fromModerator then AnswerTrue(PostBasic(r, m)) else PostWhisper(r, m)
    case CONTENT => if fromModerator then PostContent(r, valid, m) else Unchanged(r, m, Refused)
    case META => if fromModerator then PostMeta(r, valid, m) else Unchanged(r, m, Refused)
    case POLL => PollOutcome(r, m)
  }

  /** A moderator's poll goes to everyone, an answer to the moderators. */
  function PollOutcome(r: Room, m: Message): Outcome
    requires r.moderation.Some?
  {
    if m.sender in r.moderation.value.moderators then AnswerTrue(PostBasic(r, m.(recipients := multiset{})))
    else if !m.isReply then Unchanged(r, m, Refused)
    else PostBasic(r, m.(recipients := multiset(r.moderation.value.moderators)))
  }

  /** `_Meeting.post_message`: only the answer 1 is counted. */
  function Post(r: Room, valid: NtiidCheck, m: Message): Outcome
  {
    var o := if r.moderation.None? then PostBasic(r, m) else PostModerated(r, valid, m);
    if o.result == AcceptedAndCounted then o.(room := o.room.(messageCount := o.room.messageCount + 1)) else o
  }

  // ---------- Approving ----------

  /** An approved message leaves the queue and is delivered; unknown ids are ignored. */
  function Approve(r: Room, id: MessageId): (Room, Option<Outcome>)
    requires r.moderation.Some?
  {
    var mod := r.moderation.value;
    if id !in mod.queue then (r, None)
    else
      var rest := r.(moderation := Some(mod.(queue := mod.queue - {id})));
      var o := PostBasic(rest, mod.queue[id].(status := Posted));
      (o.room, Some(o))
  }

  /** `_setModerated` with the subscriber that toggles the state: switching off forgets the queue. */
  function SetModerated(r: Room, flag: bool): Room
  {
    if flag && r.moderation.None? then r.(moderation := Some(Moderation({}, {}, map[])))
    else if !flag && r.moderation.Some? then r.(moderation := None)
    else r
  }

  function AddModerator(r: Room, name: Name): Room
    requires r.moderation.Some?
  {
    r.(moderation := Some(r.moderation.value.(moderators := r.moderation.value.moderators + {name})))
  }

  function ShadowUser(r: Room, name: Name): Room
    requires r.moderation.Some?
  {
    r.(moderation := Some(r.moderation.value.(shadowed := r.moderation.value.shadowed + {name})))
  }

  // ---------- Occupants ----------

  function Enter(r: Room, names: set<Name>): Room
  {
    r.(occupants := r.occupants + names, historical := r.historical + names)
  }

  function Leave(r: Room, name: Name): Room
  {
    r.(occupants := r.occupants - {name})
  }

  /** Somebody who gets the transcripts without being in the room. */
  function AddTranscriptOwner(r: Room, name: Name): Room
  {
    r.(transcripts := r.transcripts + {name})
  }

  /** The room is made a reply to something else: those with whom that is shared get the transcripts, and those
      added before do so no longer if it was another reply. */
  function Retarget(r: Room, reset: bool, targets: set<Name>): Room
  {
    r.(transcripts := (if reset then {} else r.transcripts) + targets)
  }
}
