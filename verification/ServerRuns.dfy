/** Whole runs of a chat server: the life of rooms and who can be in them. */
module ServerRuns {
  import opened Options
  import opened ChatMessages
  import opened ChatRules
  import opened Chatserver
  import ChatRuns

  datatype Request =
    | CreateRoom(id: RoomId, sessions: Sessions, allow: seq<SessionId> -> bool, invited: seq<Invitation>,
                 transcripts: set<Name>)
    | EnterRoom(id: RoomId, name: Name, policy: Policy)
    | AddToRoom(id: RoomId, actor: Name, name: Name, policy: Policy, online: bool)
    | ExitRoom(id: RoomId, name: Name)
    | PostTo(id: RoomId, valid: NtiidCheck, message: Message)
    | ApproveIn(id: RoomId, messageId: MessageId)
    | ModerateRoom(id: RoomId, flag: bool)
    | AddModeratorTo(id: RoomId, name: Name)
    | AddTranscriptsTo(id: RoomId, name: Name)

  /** Room ids are never given out twice. */
  predicate Enabled(s: Server, q: Request)
  {
    match q
    case CreateRoom(id, _, _, _, _) => id !in s.used
    case ApproveIn(id, _) => id in s.rooms && s.rooms[id].moderation.Some?
    case AddModeratorTo(id, _) => id in s.rooms && s.rooms[id].moderation.Some?
    case ModerateRoom(id, _) => id in s.rooms
    case AddTranscriptsTo(id, _) => id in s.rooms
    case _ => true
  }

  function Step(s: Server, q: Request): Server
    requires Enabled(s, q)
  {
    match q
    case CreateRoom(id, sessions, allow, invited, transcripts) => Create(s, id, sessions, allow, invited, transcripts)
    case EnterRoom(id, name, policy) => EnterExisting(s, id, name, policy)
    case AddToRoom(id, actor, name, policy, online) => AddToExisting(s, id, actor, name, policy, online)
    case ExitRoom(id, name) => Exit(s, id, name)
    case PostTo(id, valid, m) => PostToRoom(s, id, valid, m)
    case ApproveIn(id, m) => Update(s, id, Approve(s.rooms[id], m).0)
    case ModerateRoom(id, flag) => Update(s, id, SetModerated(s.rooms[id], flag))
    case AddModeratorTo(id, name) => Update(s, id, AddModerator(s.rooms[id], name))
    case AddTranscriptsTo(id, name) => Update(s, id, AddTranscriptOwner(s.rooms[id], name))
  }

  function Run(s: Server, requests: seq<Request>): Server
    decreases |requests|
  {
    if requests == [] then s
    else Run(if Enabled(s, requests[0]) then Step(s, requests[0]) else s, requests[1..])
  }

  const START := Server(map[], {})

  /** Every room in existence is active and has somebody in it, and remembers all who are there. */
  ghost predicate Inv(s: Server)
  {
    && s.rooms.Keys <= s.used
    && forall id | id in s.rooms :: RoomIsLive(s.rooms[id])
  }

  predicate RoomIsLive(r: Room)
  {
    r.active && r.occupants != {} && r.occupants <= r.historical
  }

  /** Posting and approving leave the people in the room alone. */
  predicate SamePeople(r: Room, t: Room)
  {
    r.occupants == t.occupants && r.historical == t.historical && r.active == t.active
  }

  lemma PostKeepsPeople(r: Room, valid: NtiidCheck, m: Message)
    ensures SamePeople(r, Post(r, valid, m).room)
  {
    hide Post;
    ChatRuns.PostModeration(r, valid, m);
  }

  lemma ApproveKeepsPeople(r: Room, id: MessageId)
    requires r.moderation.Some?
    ensures SamePeople(r, Approve(r, id).0)
  {
    ChatRuns.BasicRooms(r.(moderation := Some(r.moderation.value.(queue := r.moderation.value.queue - {id}))));
    hide PostBasic;
  }

  /** A room has sessions exactly when somebody invited is present. */
  lemma {:induction false} SessionsMeanPresence(sessions: Sessions, invited: seq<Invitation>)
    ensures SessionIds(sessions, invited) == [] <==> Present(sessions, invited) == {}
  {
    if invited != [] {
      SessionsMeanPresence(sessions, invited[1..]);
      var rest, all := Present(sessions, invited[1..]), Present(sessions, invited);
      if sessions(invited[0].name, invited[0].session).Some? {
        assert invited[0].name in all;
      } else {
        forall n | n in all
          ensures n in rest
        {
          var k :| 0 <= k < |invited| && sessions(invited[k].name, invited[k].session).Some? && invited[k].name == n;
          assert invited[1..][k - 1] == invited[k];
        }
        forall n | n in rest
          ensures n in all
        {
          var k :| 0 <= k < |invited[1..]| && sessions(invited[1..][k].name, invited[1..][k].session).Some?
                   && invited[1..][k].name == n;
          assert invited[k + 1] == invited[1..][k];
        }
      }
    }
  }

  lemma StepKeepsInv(s: Server, q: Request)
    requires Inv(s) && Enabled(s, q)
    ensures Inv(Step(s, q))
  {
    hide Post, Approve;
    match q {
      case CreateRoom(id, sessions, allow, invited, transcripts) => SessionsMeanPresence(sessions, invited);
      case PostTo(id, valid, m) =>
        if id in s.rooms {
          PostKeepsPeople(s.rooms[id], valid, m);
        }
      case ApproveIn(id, m) => ApproveKeepsPeople(s.rooms[id], m);
      case _ =>
    }
  }

  /** Over every run rooms stay active, non-empty and mindful of their occupants. */
  lemma {:induction false} RoomsAreLive(s: Server, requests: seq<Request>)
    requires Inv(s)
    ensures Inv(Run(s, requests))
    decreases |requests|
  {
    if requests != [] {
      if Enabled(s, requests[0]) {
        StepKeepsInv(s, requests[0]);
        RoomsAreLive(Step(s, requests[0]), requests[1..]);
      } else {
        RoomsAreLive(s, requests[1..]);
      }
    }
  }

  /** The room is gone for good, or its history only grew. */
  ghost predicate HistoryKept(s: Server, t: Server, id: RoomId)
    requires id in s.rooms
  {
    id in t.rooms ==> s.rooms[id].historical <= t.rooms[id].historical
  }

  lemma StepKeepsHistory(s: Server, q: Request, id: RoomId)
    requires Inv(s) && Enabled(s, q) && id in s.used
    ensures s.used <= Step(s, q).used
    ensures id !in s.rooms ==> id !in Step(s, q).rooms
    ensures id in s.rooms ==> HistoryKept(s, Step(s, q), id)
  {
    hide Post, Approve;
    match q {
      case PostTo(i, valid, m) =>
        if i in s.rooms {
          PostKeepsPeople(s.rooms[i], valid, m);
        }
      case ApproveIn(i, m) => ApproveKeepsPeople(s.rooms[i], m);
      case _ =>
    }
  }

  /** Over every run a room that was removed stays removed: nobody can enter it, be added to it, or post
      to it again. */
  lemma {:induction false} RemovedRoomsStayRemoved(s: Server, requests: seq<Request>, id: RoomId)
    requires Inv(s) && id in s.used && id !in s.rooms
    ensures id !in Run(s, requests).rooms
    decreases |requests|
  {
    if requests != [] {
      if Enabled(s, requests[0]) {
        StepKeepsInv(s, requests[0]);
        StepKeepsHistory(s, requests[0], id);
        RemovedRoomsStayRemoved(Step(s, requests[0]), requests[1..], id);
      } else {
        RemovedRoomsStayRemoved(s, requests[1..], id);
      }
    }
  }

  /** Over every run the history of a room never shrinks while the room exists. */
  lemma {:induction false} HistoryNeverShrinks(s: Server, requests: seq<Request>, id: RoomId)
    requires Inv(s) && id in s.rooms
    ensures HistoryKept(s, Run(s, requests), id)
    decreases |requests|
  {
    if requests != [] {
      if Enabled(s, requests[0]) {
        var next := Step(s, requests[0]);
        StepKeepsInv(s, requests[0]);
        StepKeepsHistory(s, requests[0], id);
        if id in next.rooms {
          HistoryNeverShrinks(next, requests[1..], id);
        } else {
          RemovedRoomsStayRemoved(next, requests[1..], id);
        }
      } else {
        HistoryNeverShrinks(s, requests[1..], id);
      }
    }
  }

  /** The user does not ask to enter the room. */
  predicate NeverEnters(requests: seq<Request>, id: RoomId, name: Name)
  {
    forall k | 0 <= k < |requests| ::
      !(requests[k].EnterRoom? && requests[k].id == id && requests[k].name == name)
  }

  lemma StepKeepsOut(s: Server, q: Request, id: RoomId, name: Name)
    requires Inv(s) && Enabled(s, q) && id in s.rooms
    requires name in s.rooms[id].historical && name !in s.rooms[id].occupants
    requires !(q.EnterRoom? && q.id == id && q.name == name)
    ensures id in Step(s, q).rooms ==> name !in Step(s, q).rooms[id].occupants
  {
    hide Post, Approve;
    match q {
      case PostTo(i, valid, m) =>
        if i in s.rooms {
          PostKeepsPeople(s.rooms[i], valid, m);
        }
      case ApproveIn(i, m) => ApproveKeepsPeople(s.rooms[i], m);
      case _ =>
    }
  }

  /** Over every run a user who was in a room and left it is not in it again, whoever tries to add them,
      unless they enter it themselves. */
  lemma {:induction false} NobodyIsPutBack(s: Server, requests: seq<Request>, id: RoomId, name: Name)
    requires Inv(s) && id in s.rooms
    requires name in s.rooms[id].historical && name !in s.rooms[id].occupants && NeverEnters(requests, id, name)
    ensures id in Run(s, requests).rooms ==> name !in Run(s, requests).rooms[id].occupants
    decreases |requests|
  {
    if requests != [] {
      assert forall k | 0 <= k < |requests[1..]| :: requests[1..][k] == requests[k + 1];
      if Enabled(s, requests[0]) {
        var next := Step(s, requests[0]);
        StepKeepsInv(s, requests[0]);
        StepKeepsHistory(s, requests[0], id);
        StepKeepsOut(s, requests[0], id, name);
        if id in next.rooms {
          NobodyIsPutBack(next, requests[1..], id, name);
        } else {
          RemovedRoomsStayRemoved(next, requests[1..], id);
        }
      } else {
        NobodyIsPutBack(s, requests[1..], id, name);
      }
    }
  }

  // ---------- Who has left ----------

  /** Messages reach only those in the room. */
  lemma OnlyOccupantsReached(r: Room, valid: NtiidCheck, m: Message, id: MessageId)
    ensures ChatRuns.Reached(Post(r, valid, m)) <= r.occupants
    ensures r.moderation.Some? && Approve(r, id).1.Some? ==>
              ChatRuns.Reached(Approve(r, id).1.value) <= r.occupants
  {
    var names := ChatRuns.PostReceipts(r, valid, m);
    if r.moderation.Some? && id in r.moderation.value.queue {
      var rest := r.(moderation := Some(r.moderation.value.(queue := r.moderation.value.queue - {id})));
      var q := r.moderation.value.queue[id].(status := Posted);
      var approved := ChatRuns.BasicReceipts(rest, q);
      hide Post, PostBasic;
      ChatRuns.ReceiptsReach(PostBasic(rest, q), q.id, approved);
    }
  }

  /** Over every run, whoever leaves a room is not in it from then on until they enter it again, and no message that
      is posted or approved there reaches them; the others stay, and a room that nobody else is in is gone. */
  lemma WhoLeavesIsOut(before: seq<Request>, id: RoomId, name: Name, requests: seq<Request>, valid: NtiidCheck,
                       m: Message, messageId: MessageId)
    requires id in Run(START, before).rooms && name in Run(START, before).rooms[id].occupants
    requires NeverEnters(requests, id, name)
    ensures var s := Run(START, before);
            var t := Step(s, ExitRoom(id, name));
            && (id in t.rooms <==> s.rooms[id].occupants != {name})
            && (id in t.rooms ==>
                  name !in t.rooms[id].occupants
                  && forall n | n != name :: n in t.rooms[id].occupants <==> n in s.rooms[id].occupants)
    ensures var u := Run(Step(Run(START, before), ExitRoom(id, name)), requests);
            id in u.rooms ==>
              && name !in u.rooms[id].occupants && name !in ChatRuns.Reached(Post(u.rooms[id], valid, m))
              && (u.rooms[id].moderation.Some? && Approve(u.rooms[id], messageId).1.Some? ==>
                    name !in ChatRuns.Reached(Approve(u.rooms[id], messageId).1.value))
  {
    hide Post, Approve, Run, ChatRuns.Reached;
    var s := Run(START, before);
    var t := Step(s, ExitRoom(id, name));
    StartIsLive();
    RoomsAreLive(START, before);
    StepKeepsInv(s, ExitRoom(id, name));
    StepKeepsHistory(s, ExitRoom(id, name), id);
    if id in t.rooms {
      NobodyIsPutBack(t, requests, id, name);
    } else {
      RemovedRoomsStayRemoved(t, requests, id);
    }
    var u := Run(t, requests);
    if id in u.rooms {
      OnlyOccupantsReached(u.rooms[id], valid, m, messageId);
    }
  }

  lemma StartIsLive()
    ensures Inv(START)
  {
  }
}
