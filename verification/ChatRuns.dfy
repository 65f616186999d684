/** Whole runs of a chat room: what moderation guarantees, and what becomes of every message. */
module ChatRuns {
  import opened Options
  import opened ChatMessages
  import opened ChatRules

  /** Who receives the message itself in one outcome. */
  function Reached(o: Outcome): set<Name>
  {
    set x | x in o.sent && x.kind == Received :: x.to
  }

  /** A message posted, the room it was posted to, and whom it reached at once. */
  datatype Record = Record(message: Message, room: Room, reached: set<Name>)

  /** A message handled, by posting or by approval, the room at that time, and what came of it. */
  datatype Handling = Handling(message: Message, room: Room, outcome: Outcome)

  datatype World = World(
    room: Room,
    sent: multiset<Delivery>,
    log: seq<Record>,
    handled: seq<Handling>,
    held: set<MessageId>,
    approved: set<MessageId>,
    dropped: set<MessageId>)

  datatype Action =
    | PostMessage(message: Message)
    | ApproveMessage(id: MessageId)
    | MakeModerator(name: Name)
    | ShadowName(name: Name)
    | Moderate(flag: bool)
    | Come(names: set<Name>)
    | Go(name: Name)
    | AddTranscripts(name: Name)
    | ReplyTo(reset: bool, targets: set<Name>)

  function Ids(log: seq<Record>): set<MessageId>
  {
    set i | 0 <= i < |log| :: log[i].message.id
  }

  function PendingIds(r: Room): set<MessageId>
  {
    if r.moderation.None? then {} else r.moderation.value.queue.Keys
  }

  /** Message ids are never used twice; only moderated rooms have moderators and approvals. */
  predicate Enabled(w: World, a: Action)
  {
    match a
    case PostMessage(m) => m.id !in Ids(w.log)
    case ApproveMessage(_) => w.room.moderation.Some?
    case MakeModerator(_) => w.room.moderation.Some?
    case ShadowName(_) => w.room.moderation.Some?
    case _ => true
  }

  function Step(w: World, valid: NtiidCheck, a: Action): World
    requires Enabled(w, a)
  {
    match a
    case PostMessage(m) =>
      var o := Post(w.room, valid, m);
      w.(room := o.room,
         sent := w.sent + o.sent,
         log := w.log + [Record(m, w.room, Reached(o))],
         handled := w.handled + [Handling(m, w.room, o)],
         held := w.held + (PendingIds(o.room) - PendingIds(w.room)))
    case ApproveMessage(id) =>
      var (room, o) := Approve(w.room, id);
      if o.None? then w
      else
        w.(room := room,
           sent := w.sent + o.value.sent,
           handled := w.handled + [Handling(w.room.moderation.value.queue[id], w.room, o.value)],
           approved := w.approved + {id})
    case MakeModerator(name) => w.(room := AddModerator(w.room, name))
    case ShadowName(name) => w.(room := ShadowUser(w.room, name))
    case Moderate(flag) =>
      var room := SetModerated(w.room, flag);
      w.(room := room, dropped := w.dropped + (PendingIds(w.room) - PendingIds(room)))
    case Come(names) => w.(room := Enter(w.room, names))
    case Go(name) => w.(room := Leave(w.room, name))
    case AddTranscripts(name) => w.(room := AddTranscriptOwner(w.room, name))
    case ReplyTo(reset, targets) => w.(room := Retarget(w.room, reset, targets))
  }

  /** Actions that are not enabled have no effect. */
  function Run(w: World, valid: NtiidCheck, actions: seq<Action>): World
    decreases |actions|
  {
    if actions == [] then w
    else Run(if Enabled(w, actions[0]) then Step(w, valid, actions[0]) else w, valid, actions[1..])
  }

  const START := World(Room({}, {}, {}, None, 0, true), multiset{}, [], [], {}, {}, {})

  // ---------- What a single post does ----------

  lemma ReachedBy(kind: Kind, names: set<Name>, id: MessageId)
    ensures (set x | x in ToAll(kind, names, id) && x.kind == Received :: x.to)
         == if kind == Received then names else {}
  {
    forall n | n in names
      ensures kind == Received ==> n in set x | x in ToAll(kind, names, id) && x.kind == Received :: x.to
    {
      ToAllCount(kind, names, id, Delivery(kind, n, id));
      assert Delivery(kind, n, id) in ToAll(kind, names, id);
    }
    forall x | x in ToAll(kind, names, id)
      ensures x.kind == kind && x.to in names
    {
      ToAllCount(kind, names, id, x);
    }
  }

  /** The receipts of a post: only under its own id, once for each name. */
  ghost predicate ReceiptsAre(sent: multiset<Delivery>, id: MessageId, names: set<Name>)
  {
    forall n, i :: sent[Delivery(Received, n, i)] == if i == id && n in names then 1 else 0
  }

  lemma DeliverReceipts(r: Room, m: Message)
    ensures var o := Deliver(r, m);
            && o.room == r
            && ReceiptsAre(o.sent, m.id, if ConformsToLimits(r, m) then RecipientNames(r, m) else {})
  {
    forall n, i
      ensures ToAll(Received, RecipientNames(r, m), m.id)[Delivery(Received, n, i)]
           == if i == m.id && n in RecipientNames(r, m) then 1 else 0
    {
      ToAllCount(Received, RecipientNames(r, m), m.id, Delivery(Received, n, i));
    }
  }

  lemma NotReceipts(kind: Kind, names: set<Name>, id: MessageId)
    requires kind != Received
    ensures ReceiptsAre(ToAll(kind, names, id), id, {})
  {
    forall n, i
      ensures ToAll(kind, names, id)[Delivery(Received, n, i)] == 0
    {
      ToAllCount(kind, names, id, Delivery(Received, n, i));
    }
  }

  lemma ReceiptsReach(o: Outcome, id: MessageId, names: set<Name>)
    requires ReceiptsAre(o.sent, id, names)
    ensures Reached(o) == names
  {
    forall n | n in names
      ensures n in Reached(o)
    {
      assert o.sent[Delivery(Received, n, id)] == 1;
      assert Delivery(Received, n, id) in o.sent;
    }
    forall n | n in Reached(o)
      ensures n in names
    {
      var x :| x in o.sent && x.kind == Received && x.to == n;
      assert x == Delivery(Received, n, x.id);
    }
  }

  lemma BasicReceipts(r: Room, m: Message) returns (names: set<Name>)
    ensures ReceiptsAre(PostBasic(r, m).sent, m.id, names)
    ensures names == {} || (names == RecipientNames(r, m) && (ChannelOf(m) == STATE || ConformsToLimits(r, m)))
    ensures ChannelOf(m) in {DEFAULT, WHISPER} ==>
              names == if ConformsToLimits(r, m) then RecipientNames(r, m) else {}
  {
    match ChannelOf(m) {
      case Unknown(_) => names := {};
      case STATE =>
        var o := DeliverState(r, m);
        if o.sent == multiset{} {
          names := {};
        } else {
          names := RecipientNames(r, m);
          forall n, i
            ensures ToAll(Received, names, m.id)[Delivery(Received, n, i)] == if i == m.id && n in names then 1 else 0
          {
            ToAllCount(Received, names, m.id, Delivery(Received, n, i));
          }
        }
      case _ =>
        DeliverReceipts(r, m);
        names := if r.moderation.None? && ChannelOf(m) !in {DEFAULT, WHISPER} then {}
                 else if ConformsToLimits(r, m) then RecipientNames(r, m) else {};
    }
  }

  lemma NoReceipts(id: MessageId)
    ensures ReceiptsAre(multiset{}, id, {})
  {
  }

  lemma ReceiptsAdd(a: multiset<Delivery>, b: multiset<Delivery>, id: MessageId, names: set<Name>)
    requires ReceiptsAre(a, id, {}) && ReceiptsAre(b, id, names)
    ensures ReceiptsAre(a + b, id, names)
  {
    forall n, i
      ensures (a + b)[Delivery(Received, n, i)] == if i == id && n in names then 1 else 0
    {
      assert a[Delivery(Received, n, i)] == 0;
    }
  }

  /** The room is moderated, and not by the sender.  A room just switched to moderation has no moderators
      yet. */
  predicate Restricted(r: Room, m: Message)
  {
    r.moderation.Some? && m.sender !in Moderators(r)
  }

  /** The message goes on the queue. */
  predicate IsHeld(r: Room, m: Message)
  {
    && r.moderation.Some? && m.sender !in Moderators(r) && BodyLength(m.body) <= MAX_BODY_SIZE
    && (|| ChannelOf(m) == DEFAULT
        || (ChannelOf(m) == WHISPER && IsToAllOccupants(r, m) && |RecipientsWithoutSender(m)| > 1))
  }

  /** Whom a non-moderator's message reaches without approval. */
  function ReachWithoutApproval(r: Room, m: Message): set<Name>
    requires r.moderation.Some?
  {
    match ChannelOf(m)
    case WHISPER =>
      if MayWhisper(r.moderation.value, m) && BodyLength(m.body) <= MAX_BODY_SIZE
         && !(IsToAllOccupants(r, m) && |RecipientsWithoutSender(m)| > 1)
      then (if RecipientsWithoutSender(m) == {} then r.occupants else r.occupants * RecipientsWithSender(m))
      else {}
    case POLL =>
      if m.isReply && BodyLength(m.body) <= MAX_BODY_SIZE then
        (if Moderators(r) == {} then r.occupants else r.occupants * (Moderators(r) + {m.sender}))
      else {}
    case _ => {}
  }

  lemma WhisperReceipts(r: Room, m: Message)
    requires r.moderation.Some? && m.sender !in Moderators(r) && ChannelOf(m) == WHISPER
    ensures ReceiptsAre(PostWhisper(r, m).sent, m.id, ReachWithoutApproval(r, m))
  {
    hide Deliver, ToAll, BodyLength, RecipientsWithSender, RecipientsWithoutSender, ReceiptsAre;
    NoReceipts(m.id);
    if IsToAllOccupants(r, m) && |RecipientsWithoutSender(m)| > 1 {
      NotReceipts(ForModeration, Moderators(r), m.id);
    } else if MayWhisper(r.moderation.value, m) {
      NotReceipts(ForShadow, Moderators(r), m.id);
      var shadow := Shadow(r, m);
      StatusDoesNotMatter(r, m, shadow.message.status);
      var names := BasicReceipts(r, shadow.message);
      ReceiptsAdd(shadow.sent, PostBasic(r, shadow.message).sent, m.id, names);
    }
  }

  /** The rules never look at the status of a message. */
  lemma StatusDoesNotMatter(r: Room, m: Message, s: Status)
    ensures RecipientNames(r, m.(status := s)) == RecipientNames(r, m)
    ensures ConformsToLimits(r, m.(status := s)) == ConformsToLimits(r, m)
    ensures LikeDefaultChannel(m.(status := s)) == LikeDefaultChannel(m)
    ensures RecipientsWithSender(m.(status := s)) == RecipientsWithSender(m)
    ensures RecipientsWithoutSender(m.(status := s)) == RecipientsWithoutSender(m)
  {
  }

  lemma PollReceipts(r: Room, m: Message)
    requires r.moderation.Some? && m.sender !in Moderators(r) && ChannelOf(m) == POLL
    ensures ReceiptsAre(PollOutcome(r, m).sent, m.id, ReachWithoutApproval(r, m))
  {
    NoReceipts(m.id);
    if m.isReply {
      var answer := m.(recipients := multiset(Moderators(r)));
      assert RecipientsWithoutSender(answer) == Moderators(r);
      assert RecipientsWithSender(answer) == Moderators(r) + {m.sender};
      DeliverReceipts(r, answer);
    }
  }

  /** What a non-moderator's post does in a moderated room. */
  lemma NonModeratorPost(r: Room, valid: NtiidCheck, m: Message)
    requires r.moderation.Some? && m.sender !in Moderators(r)
    ensures ReceiptsAre(Post(r, valid, m).sent, m.id, ReachWithoutApproval(r, m))
    ensures IsHeld(r, m) ==> ReachWithoutApproval(r, m) == {}
  {
    hide ReceiptsAre, BodyLength;
    NoReceipts(m.id);
    match ChannelOf(m) {
      case WHISPER => WhisperReceipts(r, m);
      case POLL => PollReceipts(r, m);
      case DEFAULT => NotReceipts(ForModeration, Moderators(r), m.id);
      case _ =>
    }
  }

  function HeldModeration(r: Room, m: Message): Option<Moderation>
  {
    if r.moderation.None? then None
    else Some(r.moderation.value.(queue := r.moderation.value.queue[m.id := m.(status := Pending)]))
  }

  lemma WhisperModeration(r: Room, m: Message)
    requires r.moderation.Some? && m.sender !in Moderators(r) && ChannelOf(m) == WHISPER
    ensures PostWhisper(r, m).room == r.(moderation := if IsHeld(r, m) then HeldModeration(r, m) else r.moderation)
  {
    hide PostBasic, ToAll, BodyLength;
    BasicRooms(r);
  }

  lemma ModeratorModeration(r: Room, valid: NtiidCheck, m: Message)
    requires r.moderation.Some? && m.sender in Moderators(r)
    ensures PostModerated(r, valid, m).room == r
  {
    hide PostBasic, Lookup;
    BasicRooms(r);
  }

  lemma NonModeratorModeration(r: Room, valid: NtiidCheck, m: Message)
    requires r.moderation.Some? && m.sender !in Moderators(r)
    ensures PostModerated(r, valid, m).room
         == r.(moderation := if IsHeld(r, m) then HeldModeration(r, m) else r.moderation)
  {
    hide PostBasic, PostWhisper, ToAll, BodyLength;
    BasicRooms(r);
    if ChannelOf(m) == WHISPER {
      WhisperModeration(r, m);
    }
  }

  /** A post changes the room's moderation only by queueing the message. */
  lemma PostModeration(r: Room, valid: NtiidCheck, m: Message)
    ensures Post(r, valid, m).room
         == r.(moderation := if IsHeld(r, m) then HeldModeration(r, m) else r.moderation,
               messageCount := Post(r, valid, m).room.messageCount)
  {
    hide PostBasic, PostModerated, HeldModeration;
    BasicRooms(r);
    if r.moderation.Some? {
      if m.sender in Moderators(r) {
        ModeratorModeration(r, valid, m);
      } else {
        NonModeratorModeration(r, valid, m);
      }
    }
  }

  lemma BasicRooms(r: Room)
    ensures forall x {:trigger PostBasic(r, x)} :: PostBasic(r, x).room == r
  {
  }

  /** A post sends its message at most once to each occupant and to nobody else. */
  lemma PostReceipts(r: Room, valid: NtiidCheck, m: Message) returns (names: set<Name>)
    ensures ReceiptsAre(Post(r, valid, m).sent, m.id, names) && names <= r.occupants
    ensures Reached(Post(r, valid, m)) == names
  {
    hide ReceiptsAre, BodyLength, PostBasic, Lookup, PostModerated, Reached;
    if r.moderation.None? {
      names := BasicReceipts(r, m);
    } else if m.sender !in Moderators(r) {
      names := ReachWithoutApproval(r, m);
      NonModeratorPost(r, valid, m);
    } else {
      names := ModeratorReceipts(r, valid, m);
    }
    ReceiptsReach(Post(r, valid, m), m.id, names);
  }

  lemma ModeratorReceipts(r: Room, valid: NtiidCheck, m: Message) returns (names: set<Name>)
    requires r.moderation.Some? && m.sender in Moderators(r)
    ensures ReceiptsAre(PostModerated(r, valid, m).sent, m.id, names) && names <= r.occupants
  {
    hide ReceiptsAre, BodyLength, PostBasic, Lookup;
    NoReceipts(m.id);
    var passedOn, passed := PassedOn(r, valid, m);
    if passedOn {
      names := BasicReceipts(r, passed);
    } else {
      names := {};
    }
  }

  /** A moderator's post either comes to nothing or passes a message on. */
  lemma PassedOn(r: Room, valid: NtiidCheck, m: Message) returns (passedOn: bool, passed: Message)
    requires r.moderation.Some? && m.sender in Moderators(r)
    ensures var o := PostModerated(r, valid, m);
            if passedOn then
              && passed.id == m.id && passed.sender == m.sender && passed.channel == m.channel
              && passed.status == m.status
              && o.sent == PostBasic(r, passed).sent && o.notices == PostBasic(r, passed).notices
              && o.message == PostBasic(r, passed).message
            else o.sent == multiset{} && o.notices == [] && o.message.status == m.status
  {
    hide PostBasic, Lookup;
    passedOn, passed := false, m;
    match ChannelOf(m) {
      case DEFAULT => passedOn := true;
      case WHISPER => passedOn := true;
      case POLL => passedOn, passed := true, m.(recipients := multiset{});
      case CONTENT =>
        if PostContent(r, valid, m).result != Refused {
          var ntiid := Lookup(m.body.fields, "ntiid");
          passedOn, passed := true, m.(body := Mapping([("ntiid", ntiid.value)]), recipients := multiset{});
        }
      case META =>
        if PostMeta(r, valid, m).result != Refused {
          var channel, action := Lookup(m.body.fields, "channel"), Lookup(m.body.fields, "action");
          var target := [("channel", channel.value), ("action", action.value)];
          if action.value == "pin" {
            var ntiid := Lookup(m.body.fields, "ntiid");
            target := target + [("ntiid", ntiid.value)];
          }
          passedOn, passed := true, m.(recipients := multiset{}, body := Mapping(target));
        }
      case _ =>
    }
  }

  // ---------- What moderation guarantees ----------

  /** n may see the message before it is approved: its sender, a moderator, or the one person it
      is whispered to. */
  predicate MaySeeBefore(r: Room, m: Message, n: Name)
  {
    n == m.sender || n in Moderators(r) || (ChannelOf(m) == WHISPER && RecipientsWithoutSender(m) == {n})
  }

  /** A whisper that names nobody but its sender. */
  predicate WhispersToNobody(m: Message)
  {
    ChannelOf(m) == WHISPER && RecipientsWithoutSender(m) == {}
  }

  /** A reply to a poll, for which there are no moderators. */
  predicate RepliesToNobody(r: Room, m: Message)
  {
    ChannelOf(m) == POLL && m.isReply && Moderators(r) == {}
  }

  /** The two kinds of messages that are taken to be for everyone because they are for nobody. */
  predicate Bypasses(r: Room, m: Message)
  {
    WhispersToNobody(m) || RepliesToNobody(r, m)
  }

  /** A non-moderator's message bypasses moderation exactly when it whispers to nobody or replies to a poll
      of nobody, fits the size limit, and there is someone in the room to see it. */
  lemma BypassExactly(r: Room, valid: NtiidCheck, m: Message)
    requires Restricted(r, m)
    ensures (exists n | n in Reached(Post(r, valid, m)) :: !MaySeeBefore(r, m, n))
       <==> Bypasses(r, m) && BodyLength(m.body) <= MAX_BODY_SIZE
            && exists n | n in r.occupants :: !MaySeeBefore(r, m, n)
  {
    NonModeratorPost(r, valid, m);
    hide BodyLength, ReceiptsAre, Post, Reached, ReachWithoutApproval, Restricted, MaySeeBefore, Bypasses;
    ReceiptsReach(Post(r, valid, m), m.id, ReachWithoutApproval(r, m));
    UnapprovedReach(r, m);
  }

  lemma UnapprovedReach(r: Room, m: Message)
    requires Restricted(r, m)
    ensures (exists n | n in ReachWithoutApproval(r, m) :: !MaySeeBefore(r, m, n))
       <==> Bypasses(r, m) && BodyLength(m.body) <= MAX_BODY_SIZE
            && exists n | n in r.occupants :: !MaySeeBefore(r, m, n)
  {
    hide BodyLength, IsToAllOccupants;
    var others := RecipientsWithoutSender(m);
    if ChannelOf(m) == WHISPER && others != {} {
      forall n | n in ReachWithoutApproval(r, m)
        ensures MaySeeBefore(r, m, n)
      {
        if |others| == 1 && n != m.sender {
          SingletonIs(others, n);
        }
      }
    }
  }

  /** What the two questions about a non-moderator's whisper decide.  A whisper that names nobody reaches
      everyone; one to several people who, with the sender, are all in the room but the moderators is held;
      one to a single person or to moderators only reaches those named who are in the room, and its sender;
      any other reaches nobody and changes nothing. */
  lemma WhisperOutcome(r: Room, valid: NtiidCheck, m: Message)
    requires Restricted(r, m) && ChannelOf(m) == WHISPER && BodyLength(m.body) <= MAX_BODY_SIZE
    ensures var o, others := Post(r, valid, m), RecipientsWithoutSender(m);
            var named := r.occupants * (others + {m.sender});
            if others == {} then Reached(o) == r.occupants
            else if |others| > 1 && named == r.occupants - Moderators(r) then
              Reached(o) == {} && o.message.status == Pending && m.id in o.room.moderation.value.queue
            else if |others| == 1 || others <= Moderators(r) then Reached(o) == named
            else Reached(o) == {} && o == Unchanged(r, m, Nothing)
  {
    NonModeratorPost(r, valid, m);
    hide BodyLength, ReceiptsAre, Reached, Post, ReachWithoutApproval, IsHeld, MayWhisper, RecipientsWithoutSender;
    ReceiptsReach(Post(r, valid, m), m.id, ReachWithoutApproval(r, m));
    WhisperNotDelivered(r, valid, m);
    WhisperReach(r, m);
  }

  lemma WhisperReach(r: Room, m: Message)
    requires Restricted(r, m) && ChannelOf(m) == WHISPER && BodyLength(m.body) <= MAX_BODY_SIZE
    ensures var others := RecipientsWithoutSender(m);
            var named := r.occupants * (others + {m.sender});
            && (IsHeld(r, m) <==> |others| > 1 && named == r.occupants - Moderators(r))
            && (MayWhisper(r.moderation.value, m) <==> |others| == 1 || others <= Moderators(r))
            && ReachWithoutApproval(r, m)
               == if others == {} then r.occupants
                  else if !IsHeld(r, m) && MayWhisper(r.moderation.value, m) then named
                  else {}
  {
    assert RecipientsWithoutSender(m) + {m.sender} == RecipientsWithSender(m);
    hide BodyLength, RecipientsWithSender, RecipientsWithoutSender;
  }

  /** What becomes of a non-moderator's whisper that is held or refused. */
  lemma WhisperNotDelivered(r: Room, valid: NtiidCheck, m: Message)
    requires Restricted(r, m) && ChannelOf(m) == WHISPER && BodyLength(m.body) <= MAX_BODY_SIZE
    ensures var o := Post(r, valid, m);
            && (IsHeld(r, m) ==> o.message.status == Pending && m.id in o.room.moderation.value.queue)
            && (!IsHeld(r, m) && !MayWhisper(r.moderation.value, m) ==> o == Unchanged(r, m, Nothing))
  {
    hide BodyLength, ToAll, RecipientsWithoutSender, IsToAllOccupants;
  }

  /** When a delivered message counts as one to everyone: exactly if all in the room get it, or, when it
      names people, exactly if those who get it are all but the moderators. */
  lemma ToAllOutcome(r: Room, m: Message)
    requires ConformsToLimits(r, m)
    ensures var reached := Reached(Deliver(r, m));
            && (Deliver(r, m).result == AcceptedAndCounted <==> IsToAllOccupants(r, m))
            && (IsToAllOccupants(r, m) <==>
                  if LikeDefaultChannel(m) then reached == r.occupants
                  else forall n | n in r.occupants :: n in reached <==> n !in Moderators(r))
            && (r.occupants !! Moderators(r) ==> (IsToAllOccupants(r, m) <==> reached == r.occupants))
  {
    ReachedBy(Received, RecipientNames(r, m), m.id);
  }

  lemma SingletonIs(s: set<Name>, n: Name)
    requires |s| == 1 && n in s
    ensures s == {n}
  {
    assert |s - {n}| == 0;
  }

  /** A whisper that names nobody reaches the whole room although the room is moderated. */
  lemma BypassExample(valid: NtiidCheck)
    ensures var room := Room({"teacher", "ann", "bob"}, {"teacher", "ann", "bob"}, {},
                             Some(Moderation({"teacher"}, {}, map[])), 0, true);
            var m := Message(1, "ann", Some(WHISPER), Parts(["hi"]), multiset{}, false, Initial, {});
            Restricted(room, m) && "bob" in Reached(Post(room, valid, m)) && !MaySeeBefore(room, m, "bob")
  {
    var room := Room({"teacher", "ann", "bob"}, {"teacher", "ann", "bob"}, {},
                     Some(Moderation({"teacher"}, {}, map[])), 0, true);
    var m := Message(1, "ann", Some(WHISPER), Parts(["hi"]), multiset{}, false, Initial, {});
    assert RecipientsWithoutSender(m) == {};
    assert [ "hi" ][1..] == [];
    assert BodyLength(m.body) == 2;
    assert ReachWithoutApproval(room, m) == room.occupants by {
      hide IsToAllOccupants, BodyLength;
    }
    NonModeratorPost(room, valid, m);
    hide ReceiptsAre, Post, ReachWithoutApproval, Reached, BodyLength;
    ReceiptsReach(Post(room, valid, m), m.id, ReachWithoutApproval(room, m));
  }

  /** In a room just switched to moderation a reply to a poll reaches the whole room. */
  lemma PollBypassExample(valid: NtiidCheck)
    ensures var room := SetModerated(Room({"ann", "bob"}, {"ann", "bob"}, {}, None, 0, true), true);
            var m := Message(1, "ann", Some(POLL), Parts(["hi"]), multiset{}, true, Initial, {});
            Restricted(room, m) && "bob" in Reached(Post(room, valid, m)) && !MaySeeBefore(room, m, "bob")
  {
    var room := SetModerated(Room({"ann", "bob"}, {"ann", "bob"}, {}, None, 0, true), true);
    var m := Message(1, "ann", Some(POLL), Parts(["hi"]), multiset{}, true, Initial, {});
    assert ["hi"][1..] == [];
    assert BodyLength(m.body) == 2;
    assert ReachWithoutApproval(room, m) == room.occupants;
    NonModeratorPost(room, valid, m);
    hide ReceiptsAre, Post, ReachWithoutApproval, Reached, BodyLength;
    ReceiptsReach(Post(room, valid, m), m.id, ReachWithoutApproval(room, m));
  }

  // ---------- The invariant of all runs ----------

  ghost predicate Delivered(w: World, n: Name, id: MessageId)
  {
    w.sent[Delivery(Received, n, id)] > 0
  }

  /** q is a posted message waiting for approval. */
  ghost predicate Logged(log: seq<Record>, q: Message)
  {
    exists i | 0 <= i < |log| :: log[i].message.(status := Pending) == q
  }

  /** The books of held, approved and dropped messages balance. */
  ghost predicate Balanced(w: World)
  {
    && w.held == PendingIds(w.room) + w.approved + w.dropped
    && PendingIds(w.room) !! w.approved !! w.dropped
    && w.held <= Ids(w.log)
  }

  /** What is queued was posted on the default or the whisper channel, and fits the size limit. */
  ghost predicate Queued(log: seq<Record>, id: MessageId, q: Message)
  {
    && q.id == id && ChannelOf(q) in {DEFAULT, WHISPER} && BodyLength(q.body) <= MAX_BODY_SIZE
    && Logged(log, q)
  }

  ghost predicate QueueIsLogged(w: World)
  {
    forall id | id in PendingIds(w.room) :: Queued(w.log, id, w.room.moderation.value.queue[id])
  }

  /** n got the message with this id at most once, and not before its approval if it was held. */
  ghost predicate DeliveryIsSound(w: World, n: Name, id: MessageId)
  {
    && w.sent[Delivery(Received, n, id)] <= 1
    && (Delivered(w, n, id) ==> id in Ids(w.log) && (id in w.held ==> id in w.approved))
  }

  ghost predicate DeliveriesAreSound(w: World)
  {
    forall n, id :: DeliveryIsSound(w, n, id)
  }

  /** Whoever got the message got it at once, or it was approved. */
  ghost predicate ReachedOrApproved(w: World, rec: Record)
  {
    forall n :: Delivered(w, n, rec.message.id) ==> n in rec.reached || rec.message.id in w.approved
  }

  ghost predicate LogIsSound(w: World, valid: NtiidCheck)
  {
    && (forall i | 0 <= i < |w.log| ::
          && w.log[i].reached == Reached(Post(w.log[i].room, valid, w.log[i].message))
          && ReachedOrApproved(w, w.log[i]))
    && (forall i, j | 0 <= i < j < |w.log| :: w.log[i].message.id != w.log[j].message.id)
  }

  ghost predicate Inv(w: World, valid: NtiidCheck)
  {
    Balanced(w) && QueueIsLogged(w) && DeliveriesAreSound(w) && LogIsSound(w, valid)
  }

  lemma StartIsSound(valid: NtiidCheck)
    ensures Inv(START, valid)
  {
  }

  // ---------- Steps keep the invariant ----------

  lemma IdsOfMore(log: seq<Record>, rec: Record)
    ensures Ids(log + [rec]) == Ids(log) + {rec.message.id}
  {
    forall id | id in Ids(log) + {rec.message.id}
      ensures id in Ids(log + [rec])
    {
      if id in Ids(log) {
        var i :| 0 <= i < |log| && log[i].message.id == id;
        assert (log + [rec])[i] == log[i];
      } else {
        assert (log + [rec])[|log|] == rec;
      }
    }
  }

  lemma PostKeepsBooks(w: World, valid: NtiidCheck, m: Message)
    requires Inv(w, valid) && Enabled(w, PostMessage(m))
    ensures var after := Step(w, valid, PostMessage(m));
            && Balanced(after) && QueueIsLogged(after)
            && after.held == w.held + if IsHeld(w.room, m) then {m.id} else {}
  {
    hide Post, BodyLength, IsToAllOccupants, Reached, Queued, DeliveriesAreSound, LogIsSound;
    var after := Step(w, valid, PostMessage(m));
    var rec := Record(m, w.room, Reached(Post(w.room, valid, m)));
    PostModeration(w.room, valid, m);
    IdsOfMore(w.log, rec);
    assert m.id !in PendingIds(w.room);
    forall id | id in PendingIds(after.room)
      ensures Queued(after.log, id, after.room.moderation.value.queue[id])
    {
      if id == m.id {
        QueuedNow(w.log, rec);
      } else {
        StaysQueued(w.log, rec, id, w.room.moderation.value.queue[id]);
      }
    }
  }

  lemma QueuedNow(log: seq<Record>, rec: Record)
    ensures IsHeld(rec.room, rec.message) ==>
              Queued(log + [rec], rec.message.id, rec.message.(status := Pending))
  {
    hide BodyLength, IsToAllOccupants;
    assert (log + [rec])[|log|] == rec;
  }

  lemma StaysQueued(log: seq<Record>, rec: Record, id: MessageId, q: Message)
    requires Queued(log, id, q)
    ensures Queued(log + [rec], id, q)
  {
    var i :| 0 <= i < |log| && log[i].message.(status := Pending) == q;
    assert (log + [rec])[i] == log[i];
  }

  /** After a post there is one more receipt for each name the message reached. */
  lemma PostSent(w: World, valid: NtiidCheck, m: Message) returns (names: set<Name>)
    requires DeliveriesAreSound(w) && Enabled(w, PostMessage(m))
    ensures names == Reached(Post(w.room, valid, m)) && (IsHeld(w.room, m) ==> names == {})
    ensures forall n, id ::
              Step(w, valid, PostMessage(m)).sent[Delivery(Received, n, id)]
              == w.sent[Delivery(Received, n, id)] + if id == m.id && n in names then 1 else 0
    ensures forall n :: !Delivered(w, n, m.id)
  {
    hide Post, IsHeld, Ids, Reached;
    names := PostReceipts(w.room, valid, m);
    if IsHeld(w.room, m) {
      HeldReachesNobody(w.room, valid, m);
    }
    forall n
      ensures !Delivered(w, n, m.id)
    {
      assert DeliveryIsSound(w, n, m.id);
    }
  }

  lemma HeldReachesNobody(r: Room, valid: NtiidCheck, m: Message)
    requires IsHeld(r, m)
    ensures Reached(Post(r, valid, m)) == {}
  {
    NonModeratorPost(r, valid, m);
    hide Post, IsHeld, Reached;
    ReceiptsReach(Post(r, valid, m), m.id, {});
  }

  lemma PostKeepsDeliveries(w: World, valid: NtiidCheck, m: Message)
    requires Inv(w, valid) && Enabled(w, PostMessage(m))
    ensures DeliveriesAreSound(Step(w, valid, PostMessage(m)))
  {
    var after := Step(w, valid, PostMessage(m));
    PostKeepsBooks(w, valid, m);
    var names := PostSent(w, valid, m);
    IdsOfMore(w.log, Record(m, w.room, Reached(Post(w.room, valid, m))));
    forall n, id
      ensures DeliveryIsSound(after, n, id)
    {
      hide Post, IsHeld, Reached, Ids, QueueIsLogged, LogIsSound;
      assert DeliveryIsSound(w, n, id);
    }
  }

  lemma PostKeepsLog(w: World, valid: NtiidCheck, m: Message)
    requires Inv(w, valid) && Enabled(w, PostMessage(m))
    ensures LogIsSound(Step(w, valid, PostMessage(m)), valid)
  {
    var after := Step(w, valid, PostMessage(m));
    var rec := Record(m, w.room, Reached(Post(w.room, valid, m)));
    var names := PostSent(w, valid, m);
    hide Post, IsHeld, Reached, QueueIsLogged, Balanced, DeliveriesAreSound;
    assert after.log == w.log + [rec];
    forall n | Delivered(after, n, m.id)
      ensures n in rec.reached
    {
      assert !Delivered(w, n, m.id);
    }
    forall i | 0 <= i < |w.log|
      ensures w.log[i].message.id != m.id && ReachedOrApproved(after, w.log[i])
    {
      assert w.log[i].message.id in Ids(w.log);
      assert ReachedOrApproved(w, w.log[i]);
    }
    LogGrows(w, after, valid, rec);
  }

  lemma LogGrows(w: World, after: World, valid: NtiidCheck, rec: Record)
    requires LogIsSound(w, valid) && after.log == w.log + [rec]
    requires rec.reached == Reached(Post(rec.room, valid, rec.message)) && ReachedOrApproved(after, rec)
    requires forall i | 0 <= i < |w.log| ::
               w.log[i].message.id != rec.message.id && ReachedOrApproved(after, w.log[i])
    ensures LogIsSound(after, valid)
  {
    hide Post, Reached, ReachedOrApproved;
  }

  /** The receipts of an approved message. */
  lemma ApproveSent(w: World, id: MessageId) returns (names: set<Name>)
    requires Balanced(w) && QueueIsLogged(w) && w.room.moderation.Some? && id in w.room.moderation.value.queue
    ensures Approve(w.room, id).1.Some?
    ensures ReceiptsAre(Approve(w.room, id).1.value.sent, id, names)
    ensures PendingIds(Approve(w.room, id).0) == PendingIds(w.room) - {id}
    ensures id in w.held && id !in w.approved && id !in w.dropped
  {
    var mod := w.room.moderation.value;
    assert id in PendingIds(w.room);
    var rest := w.room.(moderation := Some(mod.(queue := mod.queue - {id})));
    BasicRooms(rest);
    names := BasicReceipts(rest, mod.queue[id].(status := Posted));
  }

  lemma ApproveKeepsInv(w: World, valid: NtiidCheck, id: MessageId)
    requires Inv(w, valid) && Enabled(w, ApproveMessage(id))
    ensures Inv(Step(w, valid, ApproveMessage(id)), valid)
  {
    if id in w.room.moderation.value.queue {
      var after := Step(w, valid, ApproveMessage(id));
      var names := ApproveSent(w, id);
      ApprovedQueue(w.room, id);
      hide Approve, Post, Reached, Ids, Logged, BodyLength;
      ApproveKeepsBooks(w, valid, id);
      hide Balanced, QueueIsLogged, LogIsSound, ReachedOrApproved;
      forall n, i
        ensures DeliveryIsSound(after, n, i)
        ensures i != id ==> (Delivered(after, n, i) <==> Delivered(w, n, i))
      {
        assert DeliveryIsSound(w, n, i);
        assert after.sent[Delivery(Received, n, i)]
            == w.sent[Delivery(Received, n, i)] + if i == id && n in names then 1 else 0;
      }
      LogStays(w, after, valid, id);
    }
  }

  lemma ApproveKeepsBooks(w: World, valid: NtiidCheck, id: MessageId)
    requires Inv(w, valid) && Enabled(w, ApproveMessage(id)) && id in w.room.moderation.value.queue
    ensures Balanced(Step(w, valid, ApproveMessage(id))) && QueueIsLogged(Step(w, valid, ApproveMessage(id)))
  {
    var names := ApproveSent(w, id);
    ApprovedQueue(w.room, id);
    hide Approve, Post, Reached, Ids, Queued, DeliveriesAreSound, LogIsSound;
    OneApproved(PendingIds(w.room), w.approved, w.dropped, id);
  }

  lemma OneApproved(pending: set<MessageId>, approved: set<MessageId>, dropped: set<MessageId>, id: MessageId)
    requires id in pending && pending !! approved !! dropped
    ensures pending - {id} !! approved + {id} !! dropped
    ensures pending + approved + dropped == (pending - {id}) + (approved + {id}) + dropped
  {
  }

  lemma LogStays(w: World, after: World, valid: NtiidCheck, id: MessageId)
    requires LogIsSound(w, valid) && after.log == w.log && w.approved <= after.approved
    requires forall n, i :: i != id ==> (Delivered(after, n, i) <==> Delivered(w, n, i))
    requires id in after.approved
    ensures LogIsSound(after, valid)
  {
    hide Post, Reached, Delivered;
    forall i | 0 <= i < |w.log|
      ensures ReachedOrApproved(after, w.log[i])
    {
      assert ReachedOrApproved(w, w.log[i]);
    }
  }

  lemma ApprovedQueue(r: Room, id: MessageId)
    requires r.moderation.Some? && id in r.moderation.value.queue
    ensures Approve(r, id).0.moderation == Some(r.moderation.value.(queue := r.moderation.value.queue - {id}))
  {
    BasicRooms(r.(moderation := Some(r.moderation.value.(queue := r.moderation.value.queue - {id}))));
  }

  lemma StepKeepsInv(w: World, valid: NtiidCheck, a: Action)
    requires Inv(w, valid) && Enabled(w, a)
    ensures Inv(Step(w, valid, a), valid)
  {
    match a {
      case PostMessage(m) =>
        PostKeepsBooks(w, valid, m);
        PostKeepsDeliveries(w, valid, m);
        PostKeepsLog(w, valid, m);
      case ApproveMessage(id) => ApproveKeepsInv(w, valid, id);
      case _ => QuietKeepsInv(w, valid, a);
    }
  }

  /** Steps that send no message. */
  lemma QuietKeepsInv(w: World, valid: NtiidCheck, a: Action)
    requires Inv(w, valid) && Enabled(w, a) && !a.PostMessage? && !a.ApproveMessage?
    ensures Inv(Step(w, valid, a), valid)
  {
    hide Post, Reached, Ids, Logged, BodyLength;
    var after := Step(w, valid, a);
    assert Balanced(after);
    assert QueueIsLogged(after);
    forall n, i
      ensures DeliveryIsSound(after, n, i) && (Delivered(after, n, i) <==> Delivered(w, n, i))
    {
      assert DeliveryIsSound(w, n, i);
    }
    forall i | 0 <= i < |w.log|
      ensures ReachedOrApproved(after, w.log[i])
    {
      assert ReachedOrApproved(w, w.log[i]);
    }
  }

  lemma {:induction false} RunKeepsInv(w: World, valid: NtiidCheck, actions: seq<Action>)
    requires Inv(w, valid)
    ensures Inv(Run(w, valid, actions), valid)
    decreases |actions|
  {
    if actions != [] {
      if Enabled(w, actions[0]) {
        StepKeepsInv(w, valid, actions[0]);
        RunKeepsInv(Step(w, valid, actions[0]), valid, actions[1..]);
      } else {
        RunKeepsInv(w, valid, actions[1..]);
      }
    }
  }

  // ---------- Theorems about every run ----------

  /** In every run: until it is approved, a message that a non-moderator posts to a moderated room has
      reached only people who may see it, unless it whispers to nobody or replies to a poll of nobody. */
  lemma ModerationHolds(valid: NtiidCheck, actions: seq<Action>, i: nat, n: Name)
    requires i < |Run(START, valid, actions).log|
    ensures var w := Run(START, valid, actions);
            var rec := w.log[i];
            Restricted(rec.room, rec.message) && !Bypasses(rec.room, rec.message)
            && Delivered(w, n, rec.message.id) && rec.message.id !in w.approved
            ==> MaySeeBefore(rec.room, rec.message, n)
  {
    var w := Run(START, valid, actions);
    StartIsSound(valid);
    RunKeepsInv(START, valid, actions);
    var rec := w.log[i];
    assert ReachedOrApproved(w, rec);
    if Restricted(rec.room, rec.message) && !Bypasses(rec.room, rec.message) {
      BypassExactly(rec.room, valid, rec.message);
    }
  }

  /** In every run: nobody gets a message twice, a held message reaches nobody before it is approved,
      and every held message is pending, approved or dropped, and only one of these. */
  lemma HeldMessagesAreAccountedFor(valid: NtiidCheck, actions: seq<Action>, n: Name, id: MessageId)
    ensures var w := Run(START, valid, actions);
            && w.sent[Delivery(Received, n, id)] <= 1
            && (Delivered(w, n, id) && id in w.held ==> id in w.approved)
            && w.held == PendingIds(w.room) + w.approved + w.dropped
            && |w.held| == |PendingIds(w.room)| + |w.approved| + |w.dropped|
            && (w.room.moderation.None? ==> |w.held| == |w.approved| + |w.dropped|)
  {
    var w := Run(START, valid, actions);
    StartIsSound(valid);
    RunKeepsInv(START, valid, actions);
    assert DeliveryIsSound(w, n, id);
    DisjointSizes(PendingIds(w.room), w.approved, w.dropped);
  }

  lemma DisjointSizes(a: set<MessageId>, b: set<MessageId>, c: set<MessageId>)
    requires a !! b !! c
    ensures |a + b + c| == |a| + |b| + |c|
  {
    assert |a + b| == |a| + |b|;
  }

  // ---------- The message count ----------

  predicate NeverModerates(actions: seq<Action>)
  {
    forall i | 0 <= i < |actions| :: actions[i] != Moderate(true)
  }

  /** A default or whisper message that fits the size limit and reached everyone in the room. */
  predicate IsBroadcast(rec: Record)
  {
    && ChannelOf(rec.message) in {DEFAULT, WHISPER}
    && BodyLength(rec.message.body) <= MAX_BODY_SIZE
    && rec.reached == rec.room.occupants
  }

  function Broadcasts(log: seq<Record>): nat
  {
    if log == [] then 0
    else Broadcasts(log[..|log| - 1]) + if IsBroadcast(log[|log| - 1]) then 1 else 0
  }

  lemma PlainCount(r: Room, valid: NtiidCheck, m: Message)
    requires r.moderation.None?
    ensures Post(r, valid, m).room
         == r.(messageCount := r.messageCount + if IsBroadcast(Record(m, r, Reached(Post(r, valid, m)))) then 1 else 0)
  {
    hide ToAll, RecipientsWithSender, RecipientsWithoutSender, BodyLength, ReceiptsAre, Reached, Lookup;
    BasicRooms(r);
    var o := Post(r, valid, m);
    if ChannelOf(m) in {DEFAULT, WHISPER} {
      DeliverReceipts(r, m);
      ReceiptsReach(o, m.id, if ConformsToLimits(r, m) then RecipientNames(r, m) else {});
    }
  }

  /** In a room that is never moderated, the message count is the number of broadcasts so far. */
  lemma {:induction false} CountIsBroadcasts(w: World, valid: NtiidCheck, actions: seq<Action>)
    requires w.room.moderation.None? && w.room.messageCount == Broadcasts(w.log) && NeverModerates(actions)
    ensures var after := Run(w, valid, actions);
            after.room.moderation.None? && after.room.messageCount == Broadcasts(after.log)
    decreases |actions|
  {
    if actions != [] {
      var a := actions[0];
      assert NeverModerates(actions[1..]);
      if Enabled(w, a) {
        var next := Step(w, valid, a);
        match a {
          case PostMessage(m) =>
            PlainCount(w.room, valid, m);
            assert next.log[..|next.log| - 1] == w.log;
          case _ =>
        }
        hide Post, Step, Broadcasts;
        CountIsBroadcasts(next, valid, actions[1..]);
      } else {
        CountIsBroadcasts(w, valid, actions[1..]);
      }
    }
  }
}
