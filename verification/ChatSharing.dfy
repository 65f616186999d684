/** Who shares a message that was posted, at once or by approval. */
module ChatSharing {
  import opened Options
  import opened ChatMessages
  import opened ChatRules
  import opened ChatRuns

  // ---------- One post ----------

  /** The sharing set of a delivered message is everyone it reached, its sender and the extra transcript
      owners, and the same names are notified. */
  ghost predicate SharedProperly(r: Room, m: Message, o: Outcome)
  {
    && Reached(o) <= r.occupants
    && o.message.sharedWith == Reached(o) + {m.sender} + r.transcripts
    && o.notices != [] && o.notices[|o.notices| - 1] == Notice(m.id, o.message.sharedWith)
  }

  /** A message that reached somebody, and is no presence state, was posted and is shared properly; so is
      one that became posted without reaching anybody. */
  ghost predicate SharedOrSilent(r: Room, m: Message, o: Outcome)
  {
    && (Reached(o) != {} && ChannelOf(m) != STATE ==> o.message.status == Posted && SharedProperly(r, m, o))
    && (o.message.status == Posted && m.status != Posted ==> SharedProperly(r, m, o))
  }

  lemma DeliverSharing(r: Room, m: Message)
    ensures var o := Deliver(r, m);
            if ConformsToLimits(r, m) then o.notices != [] && o.message.status == Posted && SharedProperly(r, m, o)
            else o.notices == [] && o.message == m && Reached(o) == {}
  {
    hide BodyLength, LikeDefaultChannel, RecipientsWithSender;
    ReachedBy(Received, RecipientNames(r, m), m.id);
  }

  lemma BasicSharing(r: Room, m: Message)
    ensures var o := PostBasic(r, m);
            if o.notices == [] then
              o.message.status == m.status && (Reached(o) != {} ==> ChannelOf(m) == STATE)
            else o.message.status == Posted && SharedProperly(r, m, o)
  {
    SameReach(PostBasic(r, m), PostBasic(r, m));
    DeliverSharing(r, m);
    hide Deliver, Reached, SharedProperly, ConformsToLimits, ToAll, Lookup;
  }

  /** Posting k in place of m, possibly after a notice to the moderators. */
  lemma SharingVia(r: Room, m: Message, o: Outcome, k: Message, before: seq<Notice>)
    requires k.sender == m.sender && k.id == m.id && k.channel == m.channel
    requires k.status == Posted ==> m.status == Posted
    requires Reached(o) == Reached(PostBasic(r, k)) && o.message == PostBasic(r, k).message
    requires o.notices == before + PostBasic(r, k).notices
    ensures SharedOrSilent(r, m, o)
  {
    hide Reached;
    BasicSharing(r, k);
    hide PostBasic;
  }

  lemma SameReach(o: Outcome, p: Outcome)
    ensures o.sent == p.sent ==> Reached(o) == Reached(p)
    ensures o.sent == multiset{} ==> Reached(o) == {}
  {
  }

  /** Whatever the channel and the moderation. */
  lemma PostIsShared(r: Room, valid: NtiidCheck, m: Message)
    ensures SharedOrSilent(r, m, Post(r, valid, m))
  {
    hide PostBasic, PostModerated, Reached, SharedProperly;
    var o := Post(r, valid, m);
    SameReach(o, o);
    if r.moderation.None? {
      SameReach(o, PostBasic(r, m));
      assert o.notices == [] + PostBasic(r, m).notices;
      SharingVia(r, m, o, m, []);
    } else if m.sender in Moderators(r) {
      var passedOn, passed := PassedOn(r, valid, m);
      if passedOn {
        SameReach(o, PostBasic(r, passed));
        assert o.notices == [] + PostBasic(r, passed).notices;
        SharingVia(r, m, o, passed, []);
      }
    } else {
      NonModeratorSharing(r, valid, m);
    }
  }

  lemma NonModeratorSharing(r: Room, valid: NtiidCheck, m: Message)
    requires r.moderation.Some? && m.sender !in Moderators(r)
    ensures SharedOrSilent(r, m, Post(r, valid, m))
  {
    hide PostBasic, Reached, SharedProperly, BodyLength, ToAll, IsToAllOccupants, MayWhisper;
    var o := Post(r, valid, m);
    SameReach(o, o);
    match ChannelOf(m) {
      case POLL =>
        if m.isReply {
          var answer := m.(recipients := multiset(Moderators(r)));
          SameReach(o, PostBasic(r, answer));
          assert o.notices == [] + PostBasic(r, answer).notices;
          SharingVia(r, m, o, answer, []);
        }
      case WHISPER =>
        if IsToAllOccupants(r, m) && |RecipientsWithoutSender(m)| > 1 {
          HeldOrRefused(r, m);
          SameReach(o, Hold(r, m));
        } else if MayWhisper(r.moderation.value, m) {
          var shadow := Shadow(r, m);
          ShadowAddsNoReach(r, m, PostBasic(r, shadow.message), o);
          SharingVia(r, m, o, shadow.message, shadow.notices);
        }
      case DEFAULT =>
        HeldOrRefused(r, m);
        SameReach(o, Hold(r, m));
      case _ =>
    }
  }

  lemma HeldOrRefused(r: Room, m: Message)
    requires r.moderation.Some?
    ensures Reached(Hold(r, m)) == {} && (m.status != Posted ==> Hold(r, m).message.status != Posted)
  {
    ReachedBy(ForModeration, Moderators(r), m.id);
  }

  lemma ShadowAddsNoReach(r: Room, m: Message, post: Outcome, o: Outcome)
    requires r.moderation.Some? && o.sent == Shadow(r, m).sent + post.sent
    ensures Reached(o) == Reached(post)
  {
    forall x | x in Shadow(r, m).sent
      ensures x.kind != Received
    {
      ToAllCount(ForShadow, Moderators(r), m.id, x);
    }
  }

  // ---------- One approval ----------

  /** A message that was held is, once approved, posted to the occupants it is for at that time, and shared
      properly. */
  ghost predicate ApprovedProperly(r: Room, q: Message, o: Outcome)
  {
    o.message.status == Posted && Reached(o) == RecipientNames(r, q) && SharedProperly(r, q, o)
  }

  lemma ApprovalIsShared(r: Room, id: MessageId)
    requires r.moderation.Some? && id in r.moderation.value.queue
    requires var q := r.moderation.value.queue[id];
             q.id == id && ChannelOf(q) in {DEFAULT, WHISPER} && BodyLength(q.body) <= MAX_BODY_SIZE
    ensures ApprovedProperly(r, r.moderation.value.queue[id], Approve(r, id).1.value)
  {
    var mod, q := r.moderation.value, r.moderation.value.queue[id];
    var rest := r.(moderation := Some(mod.(queue := mod.queue - {id})));
    var m := q.(status := Posted);
    StatusDoesNotMatter(rest, q, Posted);
    DeliverSharing(rest, m);
    ReachedBy(Received, RecipientNames(rest, m), id);
    hide BodyLength, RecipientsWithSender, RecipientsWithoutSender, ToAll;
    assert Approve(r, id).1.value == Deliver(rest, m);
  }

  // ---------- Every run ----------

  /** The message came to n when it was posted or approved. */
  ghost predicate CameFrom(w: World, n: Name, id: MessageId)
  {
    exists i | 0 <= i < |w.handled| :: w.handled[i].message.id == id && n in Reached(w.handled[i].outcome)
  }

  /** The message was posted and held once, and then approved, posted and shared properly. */
  ghost predicate ApprovedAndShared(w: World, id: MessageId)
  {
    exists i | 0 <= i < |w.handled| ::
      var h := w.handled[i];
      h.message.id == id && Logged(w.log, h.message) && ApprovedProperly(h.room, h.message, h.outcome)
  }

  ghost predicate Sound(h: Handling)
  {
    SharedOrSilent(h.room, h.message, h.outcome)
  }

  ghost predicate SharingInv(w: World)
  {
    && (forall i | 0 <= i < |w.handled| :: Sound(w.handled[i]))
    && (forall n, id | Delivered(w, n, id) :: CameFrom(w, n, id))
    && (forall id | id in w.approved :: ApprovedAndShared(w, id))
  }

  /** What was known of a message stays known. */
  lemma StillKnown(w: World, after: World, n: Name, id: MessageId)
    requires w.handled <= after.handled && w.log <= after.log
    ensures CameFrom(w, n, id) ==> CameFrom(after, n, id)
    ensures ApprovedAndShared(w, id) ==> ApprovedAndShared(after, id)
  {
    hide Reached, ApprovedProperly;
    if CameFrom(w, n, id) {
      var i :| 0 <= i < |w.handled| && w.handled[i].message.id == id && n in Reached(w.handled[i].outcome);
      assert after.handled[i] == w.handled[i];
    }
    if ApprovedAndShared(w, id) {
      var i :| 0 <= i < |w.handled| && w.handled[i].message.id == id && Logged(w.log, w.handled[i].message)
               && ApprovedProperly(w.handled[i].room, w.handled[i].message, w.handled[i].outcome);
      var j :| 0 <= j < |w.log| && w.log[j].message.(status := Pending) == w.handled[i].message;
      assert after.handled[i] == w.handled[i] && after.log[j] == w.log[j];
    }
  }

  /** One more handling, of message h.message, which reached those and only those that got it by this step. */
  lemma OneMoreHandled(w: World, after: World, h: Handling)
    requires SharingInv(w) && Sound(h) && after.handled == w.handled + [h] && w.log <= after.log
    requires forall n, id | Delivered(after, n, id) && !Delivered(w, n, id) ::
               id == h.message.id && n in Reached(h.outcome)
    requires forall id | id in after.approved && id !in w.approved :: ApprovedAndShared(after, id)
    ensures SharingInv(after)
  {
    hide Reached, ApprovedAndShared, Sound, Delivered;
    forall n, id | Delivered(after, n, id)
      ensures CameFrom(after, n, id)
    {
      if Delivered(w, n, id) {
        StillKnown(w, after, n, id);
      } else {
        assert after.handled[|w.handled|] == h;
      }
    }
    forall id | id in after.approved
      ensures ApprovedAndShared(after, id)
    {
      if id in w.approved {
        StillKnown(w, after, "", id);
      }
    }
  }

  lemma PostKeepsSharing(w: World, valid: NtiidCheck, m: Message)
    requires Inv(w, valid) && SharingInv(w) && Enabled(w, PostMessage(m))
    ensures SharingInv(Step(w, valid, PostMessage(m)))
  {
    var h := Handling(m, w.room, Post(w.room, valid, m));
    PostIsShared(w.room, valid, m);
    var names := PostSent(w, valid, m);
    hide Post, Reached, SharingInv, Inv, IsHeld;
    OneMoreHandled(w, Step(w, valid, PostMessage(m)), h);
  }

  lemma ApproveKeepsSharing(w: World, valid: NtiidCheck, id: MessageId)
    requires Inv(w, valid) && SharingInv(w) && Enabled(w, ApproveMessage(id))
    ensures SharingInv(Step(w, valid, ApproveMessage(id)))
  {
    if id in w.room.moderation.value.queue {
      var after := Step(w, valid, ApproveMessage(id));
      assert id in PendingIds(w.room);
      var q := w.room.moderation.value.queue[id];
      var names := ApproveSent(w, id);
      ApprovalIsShared(w.room, id);
      var o := Approve(w.room, id).1.value;
      ReceiptsReach(o, id, names);
      var h := Handling(q, w.room, o);
      hide Approve, Reached, SharingInv, Inv, BodyLength, SharedProperly, RecipientNames, ReceiptsAre;
      assert after.handled[|w.handled|] == h;
      forall n, i | Delivered(after, n, i) && !Delivered(w, n, i)
        ensures i == id && n in Reached(o)
      {
        assert ReceiptsAre(o.sent, id, names);
        NewReceipt(w.sent, o.sent, id, names, n, i);
      }
      OneMoreHandled(w, after, h);
    }
  }

  lemma NewReceipt(before: multiset<Delivery>, sent: multiset<Delivery>, id: MessageId, names: set<Name>, n: Name,
                   i: MessageId)
    requires ReceiptsAre(sent, id, names)
    requires before[Delivery(Received, n, i)] == 0 && (before + sent)[Delivery(Received, n, i)] > 0
    ensures i == id && n in names
  {
  }

  lemma QuietKeepsSharing(w: World, valid: NtiidCheck, a: Action)
    requires SharingInv(w) && Enabled(w, a) && !a.PostMessage? && !a.ApproveMessage?
    ensures SharingInv(Step(w, valid, a))
  {
    hide Reached, ApprovedProperly, Sound;
    var after := Step(w, valid, a);
    assert after.handled == w.handled && after.log == w.log && after.sent == w.sent && after.approved == w.approved;
    forall n, id | Delivered(after, n, id)
      ensures CameFrom(after, n, id)
    {
      assert Delivered(w, n, id);
      StillKnown(w, after, n, id);
    }
    forall id | id in after.approved
      ensures ApprovedAndShared(after, id)
    {
      StillKnown(w, after, "", id);
    }
  }

  lemma {:induction false} RunKeepsSharing(w: World, valid: NtiidCheck, actions: seq<Action>)
    requires Inv(w, valid) && SharingInv(w)
    ensures SharingInv(Run(w, valid, actions))
    decreases |actions|
  {
    if actions != [] {
      var a := actions[0];
      if Enabled(w, a) {
        StepKeepsInv(w, valid, a);
        match a {
          case PostMessage(m) => PostKeepsSharing(w, valid, m);
          case ApproveMessage(id) => ApproveKeepsSharing(w, valid, id);
          case _ => QuietKeepsSharing(w, valid, a);
        }
        hide Inv, SharingInv, Step;
        RunKeepsSharing(Step(w, valid, a), valid, actions[1..]);
      } else {
        RunKeepsSharing(w, valid, actions[1..]);
      }
    }
  }

  /** In every run: whoever got a message, other than a presence state, got it from a post or an approval
      that reached only occupants of the room at that time, and left the message posted and shared with
      exactly those it reached, its sender and the transcript owners, who are also those notified. */
  lemma PostedMessagesAreShared(valid: NtiidCheck, actions: seq<Action>, n: Name, id: MessageId)
    requires Delivered(Run(START, valid, actions), n, id)
    ensures var handled := Run(START, valid, actions).handled;
            exists i | 0 <= i < |handled| ::
              var h := handled[i];
              && h.message.id == id && n in Reached(h.outcome)
              && (ChannelOf(h.message) == STATE
                  || (h.outcome.message.status == Posted && SharedProperly(h.room, h.message, h.outcome)))
  {
    var w := Run(START, valid, actions);
    StartIsSound(valid);
    RunKeepsSharing(START, valid, actions);
    assert CameFrom(w, n, id);
    var i :| 0 <= i < |w.handled| && w.handled[i].message.id == id && n in Reached(w.handled[i].outcome);
    hide Reached, SharedProperly;
    assert Sound(w.handled[i]);
  }

  /** In every run: a held message that was approved went, when it was approved, to all it is for in the
      room, whoever was there when it was posted, and is shared properly. */
  lemma ApprovedMessagesAreShared(valid: NtiidCheck, actions: seq<Action>, id: MessageId)
    requires id in Run(START, valid, actions).approved
    ensures ApprovedAndShared(Run(START, valid, actions), id)
  {
    StartIsSound(valid);
    RunKeepsSharing(START, valid, actions);
  }

  // ---------- Transcript owners in runs ----------

  /** Nothing takes the name off the transcript owners. */
  predicate KeepsOwner(actions: seq<Action>, n: Name)
  {
    forall i | 0 <= i < |actions| :: actions[i].ReplyTo? && actions[i].reset ==> n in actions[i].targets
  }

  /** From the k-th on, every message handled was handled while n was a transcript owner. */
  ghost predicate OwnerSince(w: World, n: Name, k: nat)
  {
    && n in w.room.transcripts && k <= |w.handled|
    && forall i | k <= i < |w.handled| :: n in w.handled[i].room.transcripts
  }

  lemma StepKeepsOwner(w: World, valid: NtiidCheck, a: Action, n: Name, k: nat)
    requires OwnerSince(w, n, k) && Enabled(w, a) && KeepsOwner([a], n)
    ensures OwnerSince(Step(w, valid, a), n, k)
  {
    hide Post, Approve, Reached;
    assert [a][0] == a;
    match a {
      case PostMessage(m) => PostModeration(w.room, valid, m);
      case ApproveMessage(id) => ApproveKeepsOwners(w.room, id);
      case _ =>
    }
  }

  lemma ApproveKeepsOwners(r: Room, id: MessageId)
    requires r.moderation.Some?
    ensures Approve(r, id).0.transcripts == r.transcripts
    ensures Approve(r, id).1.Some? ==> id in r.moderation.value.queue
  {
    hide PostBasic;
    BasicRooms(r.(moderation := Some(r.moderation.value.(queue := r.moderation.value.queue - {id}))));
  }

  lemma {:induction false} RunKeepsOwner(w: World, valid: NtiidCheck, actions: seq<Action>, n: Name, k: nat)
    requires OwnerSince(w, n, k) && KeepsOwner(actions, n)
    ensures OwnerSince(Run(w, valid, actions), n, k)
    decreases |actions|
  {
    if actions != [] {
      hide Step, OwnerSince;
      var a := actions[0];
      assert KeepsOwner([a], n) && KeepsOwner(actions[1..], n);
      if Enabled(w, a) {
        StepKeepsOwner(w, valid, a, n, k);
        RunKeepsOwner(Step(w, valid, a), valid, actions[1..], n, k);
      } else {
        RunKeepsOwner(w, valid, actions[1..], n, k);
      }
    }
  }

  /** In every run: somebody added to the transcript owners shares, and is notified of, every message other
      than a presence state that reaches anybody from then on, in the room or not, as long as the room is not
      made a reply to something else. */
  lemma OwnersShareWhatFollows(valid: NtiidCheck, before: seq<Action>, n: Name, actions: seq<Action>, i: nat)
    requires KeepsOwner(actions, n)
    ensures var was := Run(START, valid, before);
            var w := Run(Step(was, valid, AddTranscripts(n)), valid, actions);
            |was.handled| <= i < |w.handled| && Reached(w.handled[i].outcome) != {}
            && ChannelOf(w.handled[i].message) != STATE ==>
              var o := w.handled[i].outcome;
              n in o.message.sharedWith && o.notices != [] && n in o.notices[|o.notices| - 1].names
  {
    hide Run, Reached, Inv, SharingInv;
    var was := Run(START, valid, before);
    var next := Step(was, valid, AddTranscripts(n));
    var w := Run(next, valid, actions);
    StartIsSound(valid);
    StartIsShared();
    RunKeepsInv(START, valid, before);
    RunKeepsSharing(START, valid, before);
    StepKeepsInv(was, valid, AddTranscripts(n));
    QuietKeepsSharing(was, valid, AddTranscripts(n));
    RunKeepsSharing(next, valid, actions);
    RunKeepsOwner(next, valid, actions, n, |was.handled|);
    if |was.handled| <= i < |w.handled| {
      HandledSoundly(w, i);
    }
  }

  lemma StartIsShared()
    ensures SharingInv(START)
  {
  }

  lemma HandledSoundly(w: World, i: nat)
    requires SharingInv(w) && i < |w.handled|
    ensures Sound(w.handled[i])
  {
  }
}
