/** The meeting object and its moderation state, changed step by step as messages are posted. */
module Meeting {
  import opened Options
  import opened ChatMessages
  import opened ChatRules

  class MessageInfo {
    const id: MessageId
    const sender: Name
    const channel: Option<Channel>
    const isReply: bool
    var body: Body
    var recipients: multiset<Name>
    var status: Status
    var sharedWith: set<Name>

    constructor (id: MessageId, sender: Name, channel: Option<Channel>, body: Body, recipients: multiset<Name>,
                 isReply: bool)
      ensures Value() == Message(id, sender, channel, body, recipients, isReply, Initial, {})
    {
      this.id, this.sender, this.channel, this.isReply := id, sender, channel, isReply;
      this.body, this.recipients, this.status, this.sharedWith := body, recipients, Initial, {};
    }

    function Value(): Message
      reads this
    {
      Message(id, sender, channel, body, recipients, isReply, status, sharedWith)
    }
  }

  class ModerationState {
    var moderators: set<Name>
    var shadowed: set<Name>
    var queue: map<MessageId, MessageInfo>

    constructor ()
      ensures moderators == {} && shadowed == {} && queue == map[]
    {
      moderators, shadowed, queue := {}, {}, map[];
    }

    ghost predicate Valid()
      reads this
    {
      forall i | i in queue :: queue[i].id == i
    }

    ghost function State(): Moderation
      reads this, queue.Values
    {
      Moderation(moderators, shadowed, map i | i in queue :: queue[i].Value())
    }

    /** The queued objects are left alone by changes to a message with another id. */
    ghost predicate Apart(msg: MessageInfo)
      reads this
    {
      msg.id !in queue && msg !in queue.Values
    }

    method HoldMessage(msg: MessageInfo)
      requires Valid() && Apart(msg)
      modifies this`queue, msg`status
      ensures Valid() && msg.Value() == old(msg.Value()).(status := Pending)
      ensures State() == old(State()).(queue := old(State()).queue[msg.id := msg.Value()])
    {
      queue := queue[msg.id := msg];
      msg.status := Pending;
    }

    /** Takes a message off the queue, if it is there. */
    method ApproveMessage(id: MessageId) returns (msg: MessageInfo?)
      requires Valid()
      modifies this`queue, if id in queue then {queue[id]} else {}
      ensures Valid() && (msg != null <==> id in old(queue))
      ensures msg != null ==>
                && msg == old(queue)[id] && Apart(msg)
                && msg.Value() == old(queue[id].Value()).(status := Posted)
      ensures State() == old(State()).(queue := old(State()).queue - {id})
    {
      if id !in queue {
        assert queue - {id} == queue;
        return null;
      }
      msg := queue[id];
      queue := queue - {id};
      msg.status := Posted;
    }
  }

  class Meeting {
    var occupants: set<Name>
    var historical: set<Name>
    var transcripts: set<Name>
    var moderation: ModerationState?
    var messageCount: nat
    var active: bool
    /** What has been sent, notified and announced so far. */
    var sent: multiset<Delivery>
    var notices: seq<Notice>
    var announced: seq<Announcement>

    constructor ()
      ensures Valid() && State() == Room({}, {}, {}, None, 0, true)
      ensures sent == multiset{} && notices == [] && announced == []
    {
      occupants, historical, transcripts := {}, {}, {};
      moderation, messageCount, active := null, 0, true;
      sent, notices, announced := multiset{}, [], [];
    }

    ghost predicate Valid()
      reads this, moderation
    {
      moderation != null ==> moderation.Valid()
    }

    ghost function Parts(): set<object>
      reads this, moderation
    {
      if moderation == null then {} else moderation.queue.Values
    }

    ghost function State(): Room
      reads this, moderation, Parts()
    {
      Room(occupants, historical, transcripts,
           if moderation == null then None else Some(moderation.State()), messageCount, active)
    }

    /** A meeting that nothing was written to is as it was. */
    twostate lemma StateStays()
      requires unchanged(this) && (moderation != null ==> unchanged(moderation))
      requires moderation != null ==> forall q | q in moderation.queue.Values :: unchanged(q)
      ensures State() == old(State()) && Valid() == old(Valid())
    {
      assert moderation != null ==> moderation.State().queue == old(moderation.State().queue);
    }

    ghost predicate Apart(msg: MessageInfo)
      reads this, moderation
    {
      moderation != null ==> moderation.Apart(msg)
    }

    function ModeratorNames(): set<Name>
      reads this, moderation
    {
      if moderation == null then {} else moderation.moderators
    }

    /** The call did what o says, to this meeting and to the message. */
    twostate predicate Did(msg: MessageInfo, o: Outcome, result: Result)
      reads this, moderation, Parts(), msg
    {
      && State() == o.room && msg.Value() == o.message && result == o.result
      && sent == old(sent) + o.sent && notices == old(notices) + o.notices
    }

    // ---------- Posting without moderation ----------

    method Emit(kind: Kind, names: set<Name>, id: MessageId)
      modifies this`sent
      ensures sent == old(sent) + ToAll(kind, names, id)
    {
      var rest := names;
      ghost var done: set<Name> := {};
      while rest != {}
        invariant done + rest == names && done !! rest
        invariant sent == old(sent) + ToAll(kind, done, id)
        decreases rest
      {
        var name :| name in rest;
        OneMore(kind, done, name, id);
        sent := sent + multiset{Delivery(kind, name, id)};
        rest := rest - {name};
        done := done + {name};
      }
      assert done == names;
    }

    method DeliverMessage(msg: MessageInfo) returns (result: Result)
      requires Valid() && Apart(msg)
      modifies this`sent, this`notices, msg
      ensures Did(msg, Deliver(old(State()), old(msg.Value())), result)
    {
      hide ToAll, BodyLength, LikeDefaultChannel, RecipientsWithSender;
      if !(msg.sender in ModeratorNames() || BodyLength(msg.body) <= MAX_BODY_SIZE) {
        return TooBig;
      }
      result := Accepted;
      var likeDefault := LikeDefaultChannel(msg.Value());
      var names := if likeDefault then occupants else occupants * RecipientsWithSender(msg.Value());
      if likeDefault || names == occupants - ModeratorNames() {
        result := AcceptedAndCounted;
      }
      var owners := transcripts + {msg.sender};
      assert owners + names == names + owners == names + transcripts + {msg.sender};
      Emit(Received, names, msg.id);
      notices := notices + [Notice(msg.id, owners + names)];
      msg.status, msg.sharedWith := Posted, names + owners;
      QueueKept(msg);
    }

    /** Changing a message that is not queued does not change the moderation state. */
    twostate lemma QueueKept(msg: MessageInfo)
      requires old(Valid()) && old(Apart(msg))
      requires moderation == old(moderation)
      requires moderation != null ==> unchanged(moderation)
      requires moderation != null ==> forall q | q in moderation.queue.Values :: unchanged(q)
      ensures moderation != null ==> moderation.State() == old(moderation.State())
    {
    }

    method DeliverStateMessage(msg: MessageInfo) returns (result: Result)
      requires Valid() && Apart(msg)
      modifies this`sent, msg`body
      ensures Did(msg, DeliverState(old(State()), old(msg.Value())), result)
    {
      if !msg.body.Mapping? {
        return Refused;
      }
      var state := Lookup(msg.body.fields, "state");
      if state.None? || state.value !in {"active", "composing", "paused", "inactive", "gone"} {
        return Refused;
      }
      msg.body := Mapping([("state", state.value)]);
      var names := if LikeDefaultChannel(msg.Value()) then occupants
                   else occupants * RecipientsWithSender(msg.Value());
      Emit(Received, names, msg.id);
      result := Accepted;
      QueueKept(msg);
    }

    method PostBasicMessage(msg: MessageInfo) returns (result: Result)
      requires Valid() && Apart(msg)
      modifies this`sent, this`notices, msg
      ensures Did(msg, PostBasic(old(State()), old(msg.Value())), result)
    {
      var channel := if msg.channel.None? then DEFAULT else msg.channel.value;
      match channel {
        case Unknown(_) => result := Refused;
        case STATE => result := DeliverStateMessage(msg);
        case DEFAULT => result := DeliverMessage(msg);
        case WHISPER => result := DeliverMessage(msg);
        case _ =>
          if moderation == null {
            result := Refused;
          } else {
            result := DeliverMessage(msg);
          }
      }
    }

    // ---------- Posting under moderation ----------

    method HandleDefault(msg: MessageInfo) returns (result: Result)
      requires Valid() && Apart(msg) && moderation != null && msg.sender !in moderation.moderators
      modifies this`sent, moderation`queue, msg
      ensures Valid() && Did(msg, Hold(old(State()), old(msg.Value())), result)
    {
      hide ToAll;
      if BodyLength(msg.body) > MAX_BODY_SIZE {
        return Refused;
      }
      moderation.HoldMessage(msg);
      ghost var held := moderation.State();
      Emit(ForModeration, moderation.moderators, msg.id);
      assert moderation.State() == held;
      return Accepted;
    }

    method DoShadow(msg: MessageInfo)
      requires Valid() && Apart(msg) && moderation != null
      modifies this`sent, this`notices, msg`status
      ensures Did(msg, Shadow(old(State()), old(msg.Value())), Accepted)
    {
      if moderation.shadowed * RecipientsWithSender(msg.Value()) != {} {
        Emit(ForShadow, moderation.moderators, msg.id);
        notices := notices + [Notice(msg.id, moderation.moderators)];
        msg.status := Shadowed;
        QueueKept(msg);
      }
    }

    method IsMessageToAllOccupants(msg: MessageInfo) returns (r: bool)
      requires Valid()
      ensures r == IsToAllOccupants(State(), msg.Value())
    {
      if LikeDefaultChannel(msg.Value()) {
        return true;
      }
      return occupants * RecipientsWithSender(msg.Value()) == occupants - ModeratorNames();
    }

    method CanSenderWhisperTo(msg: MessageInfo) returns (r: bool)
      requires Valid() && moderation != null
      ensures r == MayWhisper(moderation.State(), msg.Value())
    {
      var others := RecipientsWithoutSender(msg.Value());
      return msg.sender in moderation.moderators || others <= moderation.moderators || |others| == 1;
    }

    /** The part of whispering that goes through: shadow, then deliver. */
    method WhisperOn(msg: MessageInfo) returns (result: Result)
      requires Valid() && Apart(msg) && moderation != null
      requires MayWhisper(moderation.State(), msg.Value())
      requires !(IsToAllOccupants(State(), msg.Value()) && |RecipientsWithoutSender(msg.Value())| > 1)
      modifies this`sent, this`notices, msg
      ensures Did(msg, PostWhisper(old(State()), old(msg.Value())), result)
    {
      hide Hold, Shadow, PostBasic, IsToAllOccupants, MayWhisper, RecipientsWithoutSender;
      DoShadow(msg);
      ShadowKeepsRoom(old(State()), old(msg.Value()));
      result := PostBasicMessage(msg);
      if result != TooBig {
        result := Accepted;
      }
    }

    method HandleWhisper(msg: MessageInfo) returns (result: Result)
      requires Valid() && Apart(msg) && moderation != null && msg.sender !in moderation.moderators
      modifies this`sent, this`notices, moderation`queue, msg
      ensures Valid() && Did(msg, PostWhisper(old(State()), old(msg.Value())), result)
    {
      hide Hold, Shadow, PostBasic, IsToAllOccupants, MayWhisper, RecipientsWithoutSender;
      var toAll := IsMessageToAllOccupants(msg);
      if toAll && |RecipientsWithoutSender(msg.Value())| > 1 {
        result := HandleDefault(msg);
        return;
      }
      var allowed := CanSenderWhisperTo(msg);
      if allowed {
        result := WhisperOn(msg);
        return;
      }
      return Nothing;
    }

    /** A moderator's message is passed on at once. */
    method PassOn(msg: MessageInfo) returns (result: Result)
      requires Valid() && Apart(msg)
      modifies this`sent, this`notices, msg
      ensures Did(msg, AnswerTrue(PostBasic(old(State()), old(msg.Value()))), result)
    {
      hide PostBasic;
      result := PostBasicMessage(msg);
      if result != TooBig {
        result := Accepted;
      }
    }

    method HandleContent(valid: NtiidCheck, msg: MessageInfo) returns (result: Result)
      requires Valid() && Apart(msg)
      modifies this`sent, this`notices, msg
      ensures Did(msg, PostContent(old(State()), valid, old(msg.Value())), result)
    {
      hide PostBasic;
      if !msg.body.Mapping? {
        return Refused;
      }
      var ntiid := Lookup(msg.body.fields, "ntiid");
      if ntiid.None? || !valid(ntiid.value) {
        return Refused;
      }
      msg.body, msg.recipients := Mapping([("ntiid", ntiid.value)]), multiset{};
      QueueKept(msg);
      result := PassOn(msg);
    }

    method HandleMeta(valid: NtiidCheck, msg: MessageInfo) returns (result: Result)
      requires Valid() && Apart(msg)
      modifies this`sent, this`notices, msg
      ensures Did(msg, PostMeta(old(State()), valid, old(msg.Value())), result)
    {
      hide PostBasic, Deliver, BodyLength, Lookup;
      if !msg.body.Mapping? {
        return Refused;
      }
      var channel, action := Lookup(msg.body.fields, "channel"), Lookup(msg.body.fields, "action");
      if channel.None? || channel.value !in CHANNEL_NAMES || action.None? || action.value !in {"pin", "clearPinned"} {
        return Refused;
      }
      var target := [("channel", channel.value), ("action", action.value)];
      if action.value == "pin" {
        var ntiid := Lookup(msg.body.fields, "ntiid");
        if ntiid.None? || !valid(ntiid.value) {
          msg.recipients := multiset{};
          QueueKept(msg);
          return Refused;
        }
        target := target + [("ntiid", ntiid.value)];
      }
      msg.recipients, msg.body := multiset{}, Mapping(target);
      QueueKept(msg);
      result := PassOn(msg);
    }

    method HandlePoll(msg: MessageInfo) returns (result: Result)
      requires Valid() && Apart(msg) && moderation != null && ChannelOf(msg.Value()) == POLL
      modifies this`sent, this`notices, msg
      ensures Did(msg, PollOutcome(old(State()), old(msg.Value())), result)
    {
      hide PostBasic;
      if msg.sender in moderation.moderators {
        msg.recipients := multiset{};
        QueueKept(msg);
        result := PassOn(msg);
      } else if !msg.isReply {
        result := Refused;
      } else {
        msg.recipients := multiset(moderation.moderators);
        QueueKept(msg);
        result := PostBasicMessage(msg);
      }
    }

    method PostModeratedMessage(valid: NtiidCheck, msg: MessageInfo) returns (result: Result)
      requires Valid() && Apart(msg) && moderation != null
      modifies this`sent, this`notices, moderation`queue, msg
      ensures Valid() && Did(msg, PostModerated(old(State()), valid, old(msg.Value())), result)
    {
      hide PostBasic, Hold, PostWhisper, PostContent, PostMeta;
      var fromModerator := msg.sender in moderation.moderators;
      var channel := if msg.channel.None? then DEFAULT else msg.channel.value;
      match channel {
        case Unknown(_) => result := Refused;
        case STATE => result := Accepted;
        case DEFAULT =>
          if fromModerator {
            result := PassOn(msg);
          } else {
            result := HandleDefault(msg);
          }
        case WHISPER =>
          if fromModerator {
            result := PassOn(msg);
          } else {
            result := HandleWhisper(msg);
          }
        case CONTENT =>
          if fromModerator {
            result := HandleContent(valid, msg);
          } else {
            result := Refused;
          }
        case META =>
          if fromModerator {
            result := HandleMeta(valid, msg);
          } else {
            result := Refused;
          }
        case POLL => result := HandlePoll(msg);
      }
    }

    /** `post_message` */
    method PostMessage(valid: NtiidCheck, msg: MessageInfo) returns (result: Result)
      requires Valid() && Apart(msg)
      modifies this`sent, this`notices, this`messageCount, moderation, msg
      ensures Valid() && Did(msg, Post(old(State()), valid, old(msg.Value())), result)
    {
      hide PostBasic, PostModerated;
      if moderation == null {
        result := PostBasicMessage(msg);
        BasicKeepsRoom(old(State()), old(msg.Value()));
      } else {
        result := PostModeratedMessage(valid, msg);
      }
      if result == AcceptedAndCounted {
        messageCount := messageCount + 1;
      }
    }

    // ---------- Moderating ----------

    /** `approve_message`, for a moderated room. */
    method ApproveMessage(id: MessageId) returns (msg: MessageInfo?, result: Result)
      requires Valid() && moderation != null
      modifies this`sent, this`notices, moderation`queue,
               if id in moderation.queue then {moderation.queue[id]} else {}
      ensures Valid() && (msg != null <==> id in old(moderation.queue))
      ensures msg == null ==>
                State() == Approve(old(State()), id).0 && sent == old(sent) && notices == old(notices)
                && Approve(old(State()), id).1.None?
      ensures msg != null ==>
                && Approve(old(State()), id).1.Some?
                && msg == old(moderation.queue)[id]
                && Did(msg, Approve(old(State()), id).1.value, result)
    {
      hide PostBasic;
      result := Nothing;
      msg := moderation.ApproveMessage(id);
      if msg != null {
        BasicKeepsRoom(State(), msg.Value());
        result := PostBasicMessage(msg);
      } else {
        assert old(State()).moderation.value.queue - {id} == old(State()).moderation.value.queue;
      }
    }

    /** Announced to everyone in the room, also if the name was a moderator before. */
    method AddModerator(name: Name)
      requires Valid() && moderation != null
      modifies this`announced, moderation`moderators
      ensures Valid() && State() == ChatRules.AddModerator(old(State()), name)
      ensures moderation.moderators == old(moderation.moderators) + {name}
      ensures announced == old(announced) + [Announcement(ModerationChanged, occupants)]
    {
      moderation.moderators := moderation.moderators + {name};
      announced := announced + [Announcement(ModerationChanged, occupants)];
      assert State().moderation.value.queue == old(State()).moderation.value.queue;
    }

    method ShadowUser(name: Name)
      requires Valid() && moderation != null
      modifies moderation`shadowed
      ensures Valid() && State() == ChatRules.ShadowUser(old(State()), name)
      ensures moderation.shadowed == old(moderation.shadowed) + {name}
    {
      moderation.shadowed := moderation.shadowed + {name};
      assert State().moderation.value.queue == old(State()).moderation.value.queue;
    }

    /** Everyone in the room is told of a switch; setting moderation to what it is already is not news. */
    method SwitchModeration(flag: bool)
      requires Valid()
      modifies this`moderation, this`announced
      ensures Valid() && State() == SetModerated(old(State()), flag)
      ensures moderation == old(moderation) || moderation == null || fresh(moderation)
      ensures flag == (moderation != null) && (flag == old(moderation != null) ==> moderation == old(moderation))
      ensures flag && old(moderation == null) ==>
                moderation.moderators == {} && moderation.shadowed == {} && moderation.queue == map[]
      ensures announced == old(announced)
            + if State().moderation.Some? == old(State()).moderation.Some? then []
              else [Announcement(ModerationChanged, occupants)]
    {
      if flag && moderation == null {
        moderation := new ModerationState();
        announced := announced + [Announcement(ModerationChanged, occupants)];
      } else if !flag && moderation != null {
        moderation := null;
        announced := announced + [Announcement(ModerationChanged, occupants)];
      }
    }

    // ---------- Occupants ----------

    /** A newcomer is told, and so is everyone else in the room; somebody who is there already is not news. */
    method AddOccupantName(name: Name)
      requires Valid()
      modifies this`occupants, this`historical, this`announced
      ensures Valid() && State() == Enter(old(State()), {name})
      ensures occupants == old(occupants) + {name} && historical == old(historical) + {name}
      ensures announced == old(announced)
            + if name in old(occupants) then []
              else [Announcement(EnteredRoom, {name}), Announcement(MembershipChanged, old(occupants))]
    {
      var countBefore := |occupants|;
      assert name in occupants ==> occupants + {name} == occupants;
      occupants := occupants + {name};
      historical := historical + {name};
      if |occupants| != countBefore {
        announced := announced + [Announcement(EnteredRoom, {name})];
        assert occupants - {name} == old(occupants);
        announced := announced + [Announcement(MembershipChanged, occupants - {name})];
      }
    }

    /** Each newcomer is told once, and so is everyone who was there before, even if nobody is new. */
    method AddOccupantNames(names: set<Name>)
      requires Valid()
      modifies this`occupants, this`historical, this`announced
      ensures Valid() && State() == Enter(old(State()), names)
      ensures occupants == old(occupants) + names && historical == old(historical) + names
      ensures announced == old(announced) + [Announcement(EnteredRoom, occupants - old(occupants)),
                                             Announcement(MembershipChanged, old(occupants))]
    {
      var newMembers := names - occupants;
      var oldMembers := occupants - newMembers;
      assert oldMembers == occupants && occupants + newMembers == occupants + names;
      assert (occupants + newMembers) - occupants == newMembers;
      occupants := occupants + newMembers;
      historical := historical + names;
      announced := announced + [Announcement(EnteredRoom, newMembers)];
      announced := announced + [Announcement(MembershipChanged, oldMembers)];
    }

    /** Somebody who leaves is told, and so is everyone who stays. */
    method DelOccupantName(name: Name) returns (left: bool)
      requires Valid()
      modifies this`occupants, this`announced
      ensures Valid() && State() == Leave(old(State()), name) && left == (name in old(occupants))
      ensures occupants == old(occupants) - {name}
      ensures announced == old(announced)
            + if left then [Announcement(ExitedRoom, {name}), Announcement(MembershipChanged, occupants)] else []
    {
      left := name in occupants;
      if left {
        occupants := occupants - {name};
        announced := announced + [Announcement(ExitedRoom, {name})];
        announced := announced + [Announcement(MembershipChanged, occupants)];
      }
      assert old(occupants) - {name} == occupants;
    }

    method AddAdditionalTranscriptUsername(name: Name)
      requires Valid()
      modifies this`transcripts
      ensures Valid() && State() == AddTranscriptOwner(old(State()), name)
      ensures transcripts == old(transcripts) + {name}
    {
      transcripts := transcripts + {name};
    }

    /** The part of `updateFromExternalObject` that concerns transcripts. */
    method ReplyTo(reset: bool, targets: set<Name>)
      requires Valid()
      modifies this`transcripts
      ensures Valid() && State() == Retarget(old(State()), reset, targets)
      ensures transcripts == if reset then targets else old(transcripts) + targets
    {
      if reset {
        transcripts := {};
      }
      transcripts := transcripts + targets;
    }
  }

  lemma OneMore(kind: Kind, names: set<Name>, name: Name, id: MessageId)
    requires name !in names
    ensures ToAll(kind, names + {name}, id) == ToAll(kind, names, id) + multiset{Delivery(kind, name, id)}
  {
    forall x
      ensures ToAll(kind, names + {name}, id)[x]
           == (ToAll(kind, names, id) + multiset{Delivery(kind, name, id)})[x]
    {
      ToAllCount(kind, names + {name}, id, x);
      ToAllCount(kind, names, id, x);
    }
  }

  lemma ShadowKeepsRoom(r: Room, m: Message)
    requires r.moderation.Some?
    ensures Shadow(r, m).room == r
  {
  }

  lemma BasicKeepsRoom(r: Room, m: Message)
    ensures PostBasic(r, m).room == r
  {
  }
}
