/** What posting a message does, for each channel and sender: whom it reaches, what they see, who is shown it besides,
    and the answer. */
module ChatOutcomes {
  import opened Options
  import opened ChatMessages
  import opened ChatRules
  import opened ChatRuns
  import opened ChatSharing

  /** Exactly so many events of a kind, one for each name. */
  ghost predicate Shown(o: Outcome, kind: Kind, id: MessageId, names: set<Name>)
  {
    forall n, i :: o.sent[Delivery(kind, n, i)] == if i == id && n in names then 1 else 0
  }

  lemma ShownToAll(o: Outcome, kind: Kind, names: set<Name>, id: MessageId, other: Kind)
    requires o.sent == ToAll(kind, names, id)
    ensures Shown(o, other, id, if other == kind then names else {})
  {
    forall n, i
      ensures o.sent[Delivery(other, n, i)] == if i == id && n in (if other == kind then names else {}) then 1 else 0
    {
      ToAllCount(kind, names, id, Delivery(other, n, i));
    }
  }

  lemma ShownToNobody(o: Outcome, kind: Kind, id: MessageId)
    requires o.sent == multiset{}
    ensures Shown(o, kind, id, {})
  {
  }

  /** k was delivered to names: they received it and nobody else received or was shown anything; it is posted, shared
      with them, its sender and the transcript owners, and these are notified. */
  ghost predicate DeliveredTo(r: Room, o: Outcome, k: Message, names: set<Name>)
  {
    && Shown(o, Received, k.id, names) && Shown(o, ForModeration, k.id, {}) && Shown(o, ForShadow, k.id, {})
    && o.message == k.(status := Posted, sharedWith := names + {k.sender} + r.transcripts)
    && o.notices == [Notice(k.id, names + {k.sender} + r.transcripts)]
  }

  /** Nothing was sent and nobody notified. */
  ghost predicate Dropped(o: Outcome)
  {
    o.sent == multiset{} && o.notices == []
  }

  /** Whom a message is for: everyone, unless it whispers to somebody. */
  function NamedIn(r: Room, m: Message): (names: set<Name>)
    ensures names <= r.occupants
  {
    var named := set n | n in m.recipients;
    if ChannelOf(m) == WHISPER && named - {m.sender} != {} then r.occupants * (named + {m.sender}) else r.occupants
  }

  lemma DeliversTo(r: Room, k: Message, names: set<Name>)
    requires RecipientNames(r, k) == names
    ensures if k.sender in Moderators(r) || BodyLength(k.body) <= 1024
            then DeliveredTo(r, Deliver(r, k), k, names) && Deliver(r, k).room == r
                 && Deliver(r, k).result == if IsToAllOccupants(r, k) then AcceptedAndCounted else Accepted
            else Deliver(r, k) == Unchanged(r, k, TooBig)
  {
    hide BodyLength, RecipientNames, IsToAllOccupants;
    var o := Deliver(r, k);
    if ConformsToLimits(r, k) {
      ShownToAll(o, Received, names, k.id, Received);
      ShownToAll(o, Received, names, k.id, ForModeration);
      ShownToAll(o, Received, names, k.id, ForShadow);
      assert names + r.transcripts + {k.sender} == names + {k.sender} + r.transcripts;
    }
  }

  lemma Delivers(r: Room, k: Message)
    requires ChannelOf(k) in {DEFAULT, WHISPER} || k.recipients == multiset{}
    requires ChannelOf(k) != STATE
    ensures if k.sender in Moderators(r) || BodyLength(k.body) <= 1024
            then DeliveredTo(r, Deliver(r, k), k, NamedIn(r, k))
                 && Deliver(r, k).result in {Accepted, AcceptedAndCounted}
            else Deliver(r, k) == Unchanged(r, k, TooBig)
  {
    assert RecipientNames(r, k) == NamedIn(r, k);
    hide Deliver, RecipientNames, NamedIn, DeliveredTo, BodyLength;
    DeliversTo(r, k, NamedIn(r, k));
  }

  // ---------- A moderator posts ----------

  /** The message that goes out when a moderator posts: polls, content and pins are for everyone, and of the bodies of
      the last two only the known keys are kept; None if it does not go out. */
  function GoesOut(valid: NtiidCheck, m: Message): Option<Message>
  {
    match ChannelOf(m)
    case DEFAULT => Some(m)
    case WHISPER => Some(m)
    case POLL => Some(m.(recipients := multiset{}))
    case CONTENT =>
      if m.body.Mapping? && Lookup(m.body.fields, "ntiid").Some? && valid(Lookup(m.body.fields, "ntiid").value) then
        Some(m.(recipients := multiset{}, body := Mapping([("ntiid", Lookup(m.body.fields, "ntiid").value)])))
      else None
    case META =>
      if !m.body.Mapping? then None
      else
        var channel, action, ntiid :=
          Lookup(m.body.fields, "channel"), Lookup(m.body.fields, "action"), Lookup(m.body.fields, "ntiid");
        if channel.None? || channel.value !in {"DEFAULT", "WHISPER", "CONTENT", "POLL", "META", "STATE"} then None
        else if action == Some("clearPinned") then
          Some(m.(recipients := multiset{}, body := Mapping([("channel", channel.value), ("action", action.value)])))
        else if action == Some("pin") && ntiid.Some? && valid(ntiid.value) then
          Some(m.(recipients := multiset{},
                  body := Mapping([("channel", channel.value), ("action", action.value), ("ntiid", ntiid.value)])))
        else None
    case _ => None
  }

  lemma GoesOutKeeps(r: Room, valid: NtiidCheck, m: Message)
    ensures var k := GoesOut(valid, m);
            k.Some? ==>
              && k.value.id == m.id && k.value.sender == m.sender && k.value.channel == m.channel
              && (if ChannelOf(m) in {DEFAULT, WHISPER} then k.value == m else k.value.recipients == multiset{})
              && ChannelOf(k.value) == ChannelOf(m)
              && NamedIn(r, k.value) == NamedIn(r, m)
              && ChannelOf(m) in {DEFAULT, WHISPER, POLL, CONTENT, META}
  {
    hide Lookup;
  }

  lemma ModeratorPasses(r: Room, valid: NtiidCheck, m: Message)
    requires r.moderation.Some? && m.sender in Moderators(r)
    ensures var o := PostModerated(r, valid, m);
            match GoesOut(valid, m)
            case Some(k) => o == AnswerTrue(Deliver(r, k))
            case None => Dropped(o) && o.message.status == m.status
                         && o.result == if ChannelOf(m) == STATE then Accepted else Refused
  {
    hide Deliver, Lookup;
    MetaTarget();
  }

  lemma MetaTarget()
    ensures forall a: (string, string), b: (string, string), c: (string, string) :: [a, b] + [c] == [a, b, c]
  {
  }

  /** Exactly whom a moderator's message reaches in a moderated room, however long it is: everyone for an ordinary
      message, a poll, and well-formed content or pins; those whispered to who are there, and the sender, or everyone
      if the whisper names nobody; otherwise nobody.  What goes out is posted and shared, and the answer is True. */
  lemma ModeratorPost(r: Room, valid: NtiidCheck, m: Message)
    requires r.moderation.Some? && m.sender in Moderators(r)
    ensures var o := Post(r, valid, m);
            && o.room == r
            && match GoesOut(valid, m)
               case Some(k) => DeliveredTo(r, o, k, NamedIn(r, m)) && Reached(o) == NamedIn(r, m)
                               && SharedProperly(r, m, o) && o.result == Accepted
               case None => Dropped(o) && Reached(o) == {} && o.message.status == m.status
                            && o.result == if ChannelOf(m) == STATE then Accepted else Refused
  {
    hide Deliver, GoesOut, BodyLength, PostModerated, Reached, NamedIn, DeliveredTo, SharedProperly, Moderators;
    ModeratorPasses(r, valid, m);
    ModeratorModeration(r, valid, m);
    GoesOutKeeps(r, valid, m);
    var o := Post(r, valid, m);
    match GoesOut(valid, m) {
      case Some(k) =>
        Delivers(r, k);
        OtherAnswer(r, Deliver(r, k), o, k, NamedIn(r, k));
        DeliveredIsShared(r, o, m, k, NamedIn(r, k));
      case None => DroppedReaches(o, m.id);
    }
  }

  lemma OtherAnswer(r: Room, d: Outcome, o: Outcome, k: Message, names: set<Name>)
    requires DeliveredTo(r, d, k, names) && o.sent == d.sent && o.notices == d.notices && o.message == d.message
    ensures DeliveredTo(r, o, k, names)
  {
  }

  lemma DeliveredIsShared(r: Room, o: Outcome, m: Message, k: Message, names: set<Name>)
    requires DeliveredTo(r, o, k, names) && names <= r.occupants && k.id == m.id && k.sender == m.sender
    ensures Reached(o) == names && SharedProperly(r, m, o)
  {
    ReceiptsReach(o, m.id, names);
  }

  lemma DroppedReaches(o: Outcome, id: MessageId)
    requires Dropped(o)
    ensures Reached(o) == {}
  {
  }

  // ---------- Posting in a room without moderation ----------

  /** The presence states. */
  predicate IsState(b: Body)
  {
    && b.Mapping? && Lookup(b.fields, "state").Some?
    && Lookup(b.fields, "state").value in {"active", "composing", "paused", "inactive", "gone"}
  }

  lemma PlainState(r: Room, m: Message)
    requires ChannelOf(m) == STATE
    ensures var o := PostBasic(r, m);
            if IsState(m.body) then
              && Shown(o, Received, m.id, r.occupants) && Shown(o, ForModeration, m.id, {})
              && Shown(o, ForShadow, m.id, {}) && o.notices == [] && o.result == Accepted && o.room == r
              && o.message == m.(body := Mapping([("state", Lookup(m.body.fields, "state").value)]))
            else o == Unchanged(r, m, Refused)
  {
    hide Lookup;
    if IsState(m.body) {
      var o := PostBasic(r, m);
      ShownToAll(o, Received, r.occupants, m.id, Received);
      ShownToAll(o, Received, r.occupants, m.id, ForModeration);
      ShownToAll(o, Received, r.occupants, m.id, ForShadow);
    }
  }

  /** Without moderation an ordinary message or a whisper that fits the size limit is delivered to those it is for,
      and counts exactly if these are all in the room; a presence state goes to everyone, without its other keys, and
      leaves no trace; anything else goes nowhere. */
  lemma PlainPost(r: Room, valid: NtiidCheck, m: Message)
    requires r.moderation.None?
    ensures var o := Post(r, valid, m);
            && o.room == r.(messageCount := r.messageCount + if o.result == AcceptedAndCounted then 1 else 0)
            && (ChannelOf(m) in {DEFAULT, WHISPER} ==>
                  if BodyLength(m.body) <= 1024 then
                    && DeliveredTo(r, o, m, NamedIn(r, m)) && Reached(o) == NamedIn(r, m)
                    && o.result == if NamedIn(r, m) == r.occupants then AcceptedAndCounted else Accepted
                  else Dropped(o) && o.message == m && o.result == TooBig)
            && (ChannelOf(m) == STATE ==>
                  if IsState(m.body) then
                    && Shown(o, Received, m.id, r.occupants) && o.notices == [] && o.result == Accepted
                    && o.message == m.(body := Mapping([("state", Lookup(m.body.fields, "state").value)]))
                  else Dropped(o) && o.message == m && o.result == Refused)
            && (ChannelOf(m) !in {DEFAULT, WHISPER, STATE} ==> Dropped(o) && o.message == m && o.result == Refused)
  {
    hide Lookup, BodyLength, Reached, NamedIn, DeliveredTo, IsState;
    var o := Post(r, valid, m);
    if ChannelOf(m) in {DEFAULT, WHISPER} {
      Delivers(r, m);
      PlainAnswer(r, m);
      assert PostBasic(r, m) == Deliver(r, m) && Moderators(r) == {};
      hide Deliver, DeliverState;
      if BodyLength(m.body) <= 1024 {
        OtherAnswer(r, Deliver(r, m), o, m, NamedIn(r, m));
        DeliveredIsShared(r, o, m, m, NamedIn(r, m));
      }
    } else if ChannelOf(m) == STATE {
      PlainState(r, m);
      hide DeliverState;
    }
  }

  lemma PlainAnswer(r: Room, m: Message)
    requires ChannelOf(m) in {DEFAULT, WHISPER} && r.moderation.None?
    ensures Deliver(r, m).room == r
    ensures BodyLength(m.body) <= 1024 ==>
              Deliver(r, m).result == if NamedIn(r, m) == r.occupants then AcceptedAndCounted else Accepted
  {
    hide BodyLength;
  }

  // ---------- A non-moderator posts in a moderated room ----------

  /** An ordinary message, or a whisper to several people who with the sender are all in the room but the
      moderators. */
  predicate ForEverybody(r: Room, m: Message)
  {
    var others := (set n | n in m.recipients) - {m.sender};
    || ChannelOf(m) == DEFAULT
    || (ChannelOf(m) == WHISPER && |others| > 1 && r.occupants * (others + {m.sender}) == r.occupants - Moderators(r))
  }

  /** A whisper to nobody, to one person or to moderators. */
  predicate Confidential(r: Room, m: Message)
  {
    var others := (set n | n in m.recipients) - {m.sender};
    ChannelOf(m) == WHISPER && !ForEverybody(r, m) && (|others| == 1 || others <= Moderators(r))
  }

  /** The sender or somebody whispered to is shadowed. */
  predicate IsShadowed(r: Room, m: Message)
  {
    r.moderation.Some? && r.moderation.value.shadowed * ((set n | n in m.recipients) + {m.sender}) != {}
  }

  /** An ordinary message is queued as pending and shown to the moderators, if it fits, and dropped otherwise. */
  lemma HeldPost(r: Room, valid: NtiidCheck, m: Message)
    requires Restricted(r, m) && ForEverybody(r, m)
    ensures var o := Post(r, valid, m);
            if BodyLength(m.body) <= 1024 then
              && Shown(o, ForModeration, m.id, Moderators(r)) && Shown(o, Received, m.id, {})
              && Shown(o, ForShadow, m.id, {}) && o.notices == []
              && o.message == m.(status := Pending) && o.result == Accepted
              && o.room == r.(moderation := Some(r.moderation.value.(
                   queue := r.moderation.value.queue[m.id := m.(status := Pending)])))
            else o == Unchanged(r, m, Refused)
  {
    hide BodyLength;
    HeldIsHold(r, valid, m);
    var o := Hold(r, m);
    if BodyLength(m.body) <= 1024 {
      ShownToAll(o, ForModeration, Moderators(r), m.id, ForModeration);
      ShownToAll(o, ForModeration, Moderators(r), m.id, Received);
      ShownToAll(o, ForModeration, Moderators(r), m.id, ForShadow);
    }
  }

  lemma HeldIsHold(r: Room, valid: NtiidCheck, m: Message)
    requires Restricted(r, m) && ForEverybody(r, m)
    ensures Post(r, valid, m) == Hold(r, m)
  {
    hide BodyLength, ToAll, Deliver, Shadow, DeliverState;
    assert (set n | n in m.recipients) - {m.sender} + {m.sender} == RecipientsWithSender(m);
  }

  /** A confidential whisper is shown to the moderators if somebody concerned is shadowed, even if it is then too
      long; if it fits it is delivered to those it is for. */
  lemma ConfidentialPost(r: Room, valid: NtiidCheck, m: Message)
    requires Restricted(r, m) && Confidential(r, m)
    ensures var o, fits := Post(r, valid, m), BodyLength(m.body) <= 1024;
            var names, owners := NamedIn(r, m), NamedIn(r, m) + {m.sender} + r.transcripts;
            && o.room == r
            && Shown(o, ForShadow, m.id, if IsShadowed(r, m) then Moderators(r) else {})
            && Shown(o, ForModeration, m.id, {}) && Shown(o, Received, m.id, if fits then names else {})
            && o.result == (if fits then Accepted else TooBig)
            && o.message == (if fits then m.(status := Posted, sharedWith := owners)
                             else if IsShadowed(r, m) then m.(status := Shadowed) else m)
            && o.notices == (if IsShadowed(r, m) then [Notice(m.id, Moderators(r))] else [])
                            + (if fits then [Notice(m.id, owners)] else [])
  {
    hide BodyLength, Deliver, Shown;
    ConfidentialGoes(r, valid, m);
    var shadow := Shadow(r, m);
    Delivers(r, shadow.message);
    ShadowShows(r, m);
    assert NamedIn(r, shadow.message) == NamedIn(r, m);
    hide Shadow, NamedIn, IsShadowed;
    ShownBoth(shadow, Deliver(r, shadow.message), Post(r, valid, m), m.id, r, shadow.message,
              if IsShadowed(r, m) then Moderators(r) else {}, NamedIn(r, m));
  }

  lemma ConfidentialGoes(r: Room, valid: NtiidCheck, m: Message)
    requires Restricted(r, m) && Confidential(r, m)
    ensures var shadow := Shadow(r, m);
            var d := Deliver(r, shadow.message);
            Post(r, valid, m)
            == Outcome(r, d.message, shadow.sent + d.sent, shadow.notices + d.notices,
                       if d.result == TooBig then TooBig else Accepted)
  {
    hide BodyLength, ToAll, DeliverState;
    assert (set n | n in m.recipients) - {m.sender} + {m.sender} == RecipientsWithSender(m);
  }

  lemma ShadowShows(r: Room, m: Message)
    requires r.moderation.Some?
    ensures var o := Shadow(r, m);
            var names := if IsShadowed(r, m) then Moderators(r) else {};
            && Shown(o, ForShadow, m.id, names) && Shown(o, ForModeration, m.id, {}) && Shown(o, Received, m.id, {})
            && o.message == (if IsShadowed(r, m) then m.(status := Shadowed) else m)
            && o.notices == (if IsShadowed(r, m) then [Notice(m.id, Moderators(r))] else [])
  {
    var o := Shadow(r, m);
    if IsShadowed(r, m) {
      ShownToAll(o, ForShadow, Moderators(r), m.id, ForShadow);
      ShownToAll(o, ForShadow, Moderators(r), m.id, ForModeration);
      ShownToAll(o, ForShadow, Moderators(r), m.id, Received);
    }
  }

  /** What is shown and what is delivered, together. */
  lemma ShownBoth(shadow: Outcome, d: Outcome, o: Outcome, id: MessageId, r: Room, k: Message, moderators: set<Name>,
                  names: set<Name>)
    requires o.sent == shadow.sent + d.sent && k.id == id
    requires Shown(shadow, ForShadow, id, moderators) && Shown(shadow, ForModeration, id, {})
    requires Shown(shadow, Received, id, {})
    requires DeliveredTo(r, d, k, names) || d.sent == multiset{}
    ensures Shown(o, ForShadow, id, moderators) && Shown(o, ForModeration, id, {})
    ensures Shown(o, Received, id, if d.sent == multiset{} then {} else names) || names == {}
    ensures DeliveredTo(r, d, k, names) ==> Shown(o, Received, id, names)
    ensures d.sent == multiset{} ==> Shown(o, Received, id, {})
  {
  }

  /** Whispers to others reach nobody, and so do presence states, and content, pins and polls of non-moderators. */
  lemma RefusedPost(r: Room, valid: NtiidCheck, m: Message)
    requires Restricted(r, m) && !ForEverybody(r, m) && !Confidential(r, m) && !(ChannelOf(m) == POLL && m.isReply)
    ensures Post(r, valid, m)
         == Unchanged(r, m, match ChannelOf(m)
                            case WHISPER => Nothing
                            case STATE => Accepted
                            case _ => Refused)
  {
    hide BodyLength, ToAll, Deliver, Shadow, DeliverState, Hold;
    assert (set n | n in m.recipients) - {m.sender} + {m.sender} == RecipientsWithSender(m);
  }

  /** A reply to a poll goes to the moderators and its sender, or to everyone if there are no moderators; it counts if
      these are all in the room, or all but the moderators. */
  lemma PollReply(r: Room, valid: NtiidCheck, m: Message)
    requires Restricted(r, m) && ChannelOf(m) == POLL && m.isReply
    ensures var o, mods := Post(r, valid, m), Moderators(r);
            var names := if mods == {} then r.occupants else r.occupants * (mods + {m.sender});
            var k := m.(recipients := multiset(mods));
            if BodyLength(m.body) <= 1024 then
              && DeliveredTo(r, o, k, names)
              && o.result == (if mods == {} || names == r.occupants - mods then AcceptedAndCounted else Accepted)
              && o.room == r.(messageCount := r.messageCount + if o.result == AcceptedAndCounted then 1 else 0)
            else o == Unchanged(r, k, TooBig)
  {
    var mods := Moderators(r);
    var k := m.(recipients := multiset(mods));
    var names := if mods == {} then r.occupants else r.occupants * (mods + {m.sender});
    ReplyRecipients(r, m);
    hide BodyLength, Deliver, RecipientNames, IsToAllOccupants, DeliveredTo, Moderators;
    ReplyGoes(r, valid, m);
    DeliversTo(r, k, names);
    if BodyLength(m.body) <= 1024 {
      OtherAnswer(r, Deliver(r, k), Post(r, valid, m), k, names);
    }
  }

  lemma ReplyRecipients(r: Room, m: Message)
    requires Restricted(r, m) && ChannelOf(m) == POLL
    ensures var mods, k := Moderators(r), m.(recipients := multiset(Moderators(r)));
            var names := if mods == {} then r.occupants else r.occupants * (mods + {m.sender});
            && RecipientNames(r, k) == names && k.sender !in mods
            && (IsToAllOccupants(r, k) <==> mods == {} || names == r.occupants - mods)
  {
    var k := m.(recipients := multiset(Moderators(r)));
    assert RecipientsWithoutSender(k) == Moderators(r) && RecipientsWithSender(k) == Moderators(r) + {m.sender};
    hide RecipientsWithoutSender, RecipientsWithSender;
  }

  lemma ReplyGoes(r: Room, valid: NtiidCheck, m: Message)
    requires Restricted(r, m) && ChannelOf(m) == POLL && m.isReply
    ensures var d := Deliver(r, m.(recipients := multiset(Moderators(r))));
            Post(r, valid, m)
            == if d.result != AcceptedAndCounted then d
               else d.(room := d.room.(messageCount := d.room.messageCount + 1))
  {
    hide Deliver;
  }

  // ---------- Approving ----------

  /** An approved message leaves the queue and is delivered to those in the room whom it is for; an unknown id does
      nothing. */
  lemma ApprovedPost(r: Room, id: MessageId)
    requires r.moderation.Some?
    requires id in r.moderation.value.queue ==> ChannelOf(r.moderation.value.queue[id]) in {DEFAULT, WHISPER}
    ensures var (room, o) := Approve(r, id);
            if id !in r.moderation.value.queue then room == r && o == None
            else
              var q := r.moderation.value.queue[id];
              && room == r.(moderation := Some(r.moderation.value.(queue := r.moderation.value.queue - {id})))
              && o.Some?
              && (q.sender in Moderators(r) || BodyLength(q.body) <= 1024 ==>
                    DeliveredTo(r, o.value, q, NamedIn(r, q)) && Reached(o.value) == NamedIn(r, q))
  {
    if id in r.moderation.value.queue {
      var q := r.moderation.value.queue[id];
      var rest := r.(moderation := Some(r.moderation.value.(queue := r.moderation.value.queue - {id})));
      var k := q.(status := Posted);
      var o := Approve(r, id).1.value;
      hide BodyLength;
      assert Approve(r, id) == (rest, Some(Deliver(rest, k)));
      assert NamedIn(rest, k) == NamedIn(r, q) && Moderators(rest) == Moderators(r);
      hide Deliver, NamedIn, Reached;
      Delivers(rest, k);
      if q.sender in Moderators(r) || BodyLength(q.body) <= 1024 {
        SameDelivery(rest, k, r, q, o, NamedIn(r, q));
        ReceiptsReach(o, q.id, NamedIn(r, q));
      }
    }
  }

  lemma SameDelivery(rest: Room, k: Message, r: Room, q: Message, o: Outcome, names: set<Name>)
    requires DeliveredTo(rest, o, k, names) && rest.transcripts == r.transcripts && k == q.(status := Posted)
    ensures DeliveredTo(r, o, q, names)
  {
  }
}
