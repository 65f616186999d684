/** The chat server: which rooms exist, who may create, enter and leave them, and posting to them. */
module Chatserver {
  import opened Options
  import opened ChatMessages
  import opened ChatRules
  import opened Meeting

  type RoomId = nat
  type SessionId = nat

  /** Somebody to invite, by name or with a session that must exist. */
  datatype Invitation = Invitation(name: Name, session: Option<SessionId>)

  /** Whom the authorization policy, if one is registered, permits to enter a room or to add somebody to it. */
  type Policy = Option<Name -> bool>

  predicate Permits(policy: Policy, actor: Name)
  {
    policy.None? || policy.value(actor)
  }

  /** `get_session_for` */
  type Sessions = (Name, Option<SessionId>) -> Option<SessionId>

  /** The rooms in existence and all room ids ever given out. */
  datatype Server = Server(rooms: map<RoomId, Room>, used: set<RoomId>)

  // ---------- The rules ----------

  function Present(sessions: Sessions, invited: seq<Invitation>): set<Name>
  {
    set i | 0 <= i < |invited| && sessions(invited[i].name, invited[i].session).Some? :: invited[i].name
  }

  function SessionIds(sessions: Sessions, invited: seq<Invitation>): seq<SessionId>
  {
    if invited == [] then []
    else
      var session := sessions(invited[0].name, invited[0].session);
      (if session.None? then [] else [session.value]) + SessionIds(sessions, invited[1..])
  }

  /** A room for those of the invited who are online, if there are any and they are allowed. */
  function Create(s: Server, id: RoomId, sessions: Sessions, allow: seq<SessionId> -> bool,
                  invited: seq<Invitation>, transcripts: set<Name>): Server
  {
    var ids := SessionIds(sessions, invited);
    if ids == [] || !allow(ids) then s
    else
      Server(s.rooms[id := Enter(Room({}, {}, transcripts, None, 0, true), Present(sessions, invited))],
             s.used + {id})
  }

  predicate IsOpen(s: Server, id: RoomId)
  {
    id in s.rooms && s.rooms[id].active
  }

  function Update(s: Server, id: RoomId, r: Room): Server
  {
    s.(rooms := s.rooms[id := r])
  }

  /** A user enters an existing room, if the policy permits that user. */
  function EnterExisting(s: Server, id: RoomId, name: Name, policy: Policy): Server
  {
    if !IsOpen(s, id) || !Permits(policy, name) then s else Update(s, id, Enter(s.rooms[id], {name}))
  }

  /** An actor whom the policy permits adds a user who is online to an existing room; never one who has
      been there before.  The actor need not be in the room. */
  function AddToExisting(s: Server, id: RoomId, actor: Name, name: Name, policy: Policy, online: bool): Server
  {
    if !IsOpen(s, id) || name in s.rooms[id].historical || !Permits(policy, actor) || !online then s
    else Update(s, id, Enter(s.rooms[id], {name}))
  }

  /** A user leaves; a room left empty goes inactive and is removed. */
  function Exit(s: Server, id: RoomId, name: Name): Server
  {
    if id !in s.rooms then s
    else
      var r := Leave(s.rooms[id], name);
      if r.occupants == {} then s.(rooms := s.rooms - {id}) else Update(s, id, r)
  }

  /** Messages from outside the room, and those addressed to the sender alone, are dropped. */
  predicate MayPost(s: Server, id: RoomId, m: Message)
  {
    && IsOpen(s, id)
    && !(|m.recipients| == 1 && RecipientsWithoutSender(m) == {})
    && m.sender in s.rooms[id].occupants
  }

  function PostToRoom(s: Server, id: RoomId, valid: NtiidCheck, m: Message): Server
  {
    if !MayPost(s, id, m) then s else Update(s, id, Post(s.rooms[id], valid, m).room)
  }

  // ---------- The object ----------

  class Chatserver {
    var rooms: map<RoomId, Meeting>
    ghost var used: set<RoomId>

    constructor ()
      ensures Valid() && State() == Server(map[], {})
    {
      rooms := map[];
      used := {};
    }

    /** Rooms are different objects, and so are their moderation states. */
    ghost predicate Valid()
      reads this, rooms.Values, set r | r in rooms.Values && r.moderation != null :: r.moderation
    {
      && (forall id | id in rooms :: rooms[id].Valid())
      && (forall i, j | i in rooms && j in rooms && i != j ::
            rooms[i] != rooms[j]
            && (rooms[i].moderation == null || rooms[i].moderation != rooms[j].moderation))
      && rooms.Keys <= used
    }

    ghost function Footprint(): set<object>
      reads this, rooms.Values, set r | r in rooms.Values && r.moderation != null :: r.moderation
    {
      set id, q | id in rooms && q in rooms[id].Parts() :: q
    }

    ghost function State(): Server
      reads this, rooms.Values, set r | r in rooms.Values && r.moderation != null :: r.moderation, Footprint()
    {
      Server(map id | id in rooms :: rooms[id].State(), used)
    }

    /** Nothing was written to the meeting, its moderation state, or its queued messages. */
    static twostate predicate Untouched(m: Meeting)
      reads m, m.moderation, m.Parts()
    {
      && unchanged(m)
      && (m.moderation != null ==>
            unchanged(m.moderation) && forall q | q in m.moderation.queue.Values :: unchanged(q))
    }

    /** Only the room with this id was written to. */
    twostate predicate OthersUntouched(id: RoomId)
      reads this, rooms.Values, set r | r in rooms.Values && r.moderation != null :: r.moderation, Footprint()
    {
      forall i | i in rooms && i != id :: i in old(rooms) && rooms[i] == old(rooms[i]) && Untouched(rooms[i])
    }

    twostate lemma OneRoomChanged(id: RoomId)
      requires id in rooms && rooms == old(rooms) && used == old(used) && OthersUntouched(id)
      ensures State() == Update(old(State()), id, rooms[id].State())
    {
      forall i | i in rooms && i != id
        ensures rooms[i].State() == old(rooms[i].State())
      {
        assert Untouched(rooms[i]);
        rooms[i].StateStays();
      }
    }

    twostate lemma OneRoomStaysValid(id: RoomId)
      requires old(Valid()) && id in rooms && rooms == old(rooms) && used == old(used) && OthersUntouched(id)
      requires rooms[id].Valid()
      requires rooms[id].moderation == old(rooms[id].moderation)
      ensures Valid()
    {
      forall i | i in rooms && i != id
        ensures rooms[i].Valid()
      {
        assert Untouched(rooms[i]);
        rooms[i].StateStays();
      }
    }

    function GetMeeting(id: RoomId): Meeting?
      reads this
    {
      if id in rooms then rooms[id] else null
    }

    /** Adds an occupant to a room. */
    method Admit(id: RoomId, name: Name)
      requires Valid() && id in rooms
      modifies rooms[id]
      ensures Valid() && State() == Update(old(State()), id, Enter(old(State()).rooms[id], {name}))
      ensures rooms[id].occupants == old(rooms[id].occupants) + {name}
      ensures rooms[id].historical == old(rooms[id].historical) + {name}
    {
      hide Enter, Update;
      var room := rooms[id];
      room.AddOccupantName(name);
      assert OthersUntouched(id) by {
        forall i | i in rooms && i != id
          ensures Untouched(rooms[i])
        {
          assert rooms[i] != room;
        }
      }
      OneRoomChanged(id);
      OneRoomStaysValid(id);
    }

    /** An occupant leaves a room. */
    method Dismiss(id: RoomId, name: Name) returns (left: bool)
      requires Valid() && id in rooms
      modifies rooms[id]
      ensures Valid() && State() == Update(old(State()), id, Leave(old(State()).rooms[id], name))
      ensures rooms[id].occupants == old(rooms[id].occupants) - {name}
      ensures left == (name in old(rooms[id].occupants))
    {
      hide Leave, Update;
      var room := rooms[id];
      left := room.DelOccupantName(name);
      assert OthersUntouched(id) by {
        forall i | i in rooms && i != id
          ensures Untouched(rooms[i])
        {
          assert rooms[i] != room;
        }
      }
      OneRoomChanged(id);
      OneRoomStaysValid(id);
      assert room.State() == Leave(old(State()).rooms[id], name);
    }

    method EnterExistingMeeting(id: RoomId, name: Name, policy: Policy) returns (room: Meeting?)
      requires Valid()
      modifies if id in rooms then {rooms[id]} else {}
      ensures Valid() && rooms == old(rooms) && used == old(used)
      ensures State() == EnterExisting(old(State()), id, name, policy)
      ensures room != null <==> id in rooms && old(rooms[id].active) && (policy.None? || policy.value(name))
      ensures room != null ==>
                && room == rooms[id] && room.occupants == old(rooms[id].occupants) + {name}
                && room.historical == old(rooms[id].historical) + {name}
      ensures room == null && id in rooms ==> unchanged(rooms[id])
    {
      hide Enter, Update;
      room := GetMeeting(id);
      assert if room == null then id !in State().rooms else State().rooms[id] == room.State();
      if room == null || !room.active {
        return null;
      }
      if policy.None? || policy.value(name) {
        Admit(id, name);
      } else {
        room := null;
      }
    }

    method AddOccupantToExistingMeeting(id: RoomId, actor: Name, name: Name, policy: Policy, sessions: Sessions)
      returns (room: Meeting?)
      requires Valid()
      modifies if id in rooms then {rooms[id]} else {}
      ensures Valid() && rooms == old(rooms) && used == old(used)
      ensures State() == AddToExisting(old(State()), id, actor, name, policy, sessions(name, None).Some?)
      ensures room != null <==> && id in rooms && old(rooms[id].active) && name !in old(rooms[id].historical)
                                && (policy.None? || policy.value(actor)) && sessions(name, None).Some?
      ensures room != null ==>
                && room == rooms[id] && room.occupants == old(rooms[id].occupants) + {name}
                && room.historical == old(rooms[id].historical) + {name}
      ensures room == null && id in rooms ==> unchanged(rooms[id])
    {
      hide Enter, Update;
      room := GetMeeting(id);
      assert if room == null then id !in State().rooms else State().rooms[id] == room.State();
      if room == null || !room.active || name in room.historical {
        return null;
      }
      if (policy.None? || policy.value(actor)) && sessions(name, None).Some? {
        Admit(id, name);
      } else {
        room := null;
      }
    }

    method ExitMeeting(id: RoomId, name: Name) returns (left: bool)
      requires Valid()
      modifies this`rooms, if id in rooms then {rooms[id]} else {}
      ensures Valid() && used == old(used) && State() == Exit(old(State()), id, name)
      ensures left <==> id in old(rooms) && name in old(rooms[id].occupants)
      ensures id !in old(rooms) ==> rooms == old(rooms)
      ensures id in old(rooms) && old(rooms[id].occupants) <= {name} ==> rooms == old(rooms) - {id}
      ensures id in old(rooms) && !(old(rooms[id].occupants) <= {name}) ==>
                rooms == old(rooms) && rooms[id].occupants == old(rooms[id].occupants) - {name}
    {
      hide Leave;
      left := false;
      var room := GetMeeting(id);
      assert if room == null then id !in State().rooms else State().rooms[id] == room.State();
      if room == null {
        return;
      }
      left := Dismiss(id, name);
      if room.occupants == {} {
        Close(id);
        assert State().rooms == old(State()).rooms - {id};
      }
    }

    twostate lemma OneRoomRemoved(id: RoomId)
      requires old(Valid()) && rooms == old(rooms) - {id} && used == old(used) && OthersUntouched(id)
      ensures Valid() && State() == old(State()).(rooms := old(State()).rooms - {id})
    {
      forall i | i in rooms
        ensures rooms[i].Valid() && rooms[i].State() == old(rooms[i].State())
      {
        assert Untouched(rooms[i]);
        rooms[i].StateStays();
      }
      assert State().rooms == old(State()).rooms - {id};
    }

    /** An empty room goes inactive and is deleted. */
    method Close(id: RoomId)
      requires Valid() && id in rooms
      modifies this`rooms, rooms[id]
      ensures rooms == old(rooms) - {id}
      ensures Valid() && State() == old(State()).(rooms := old(State()).rooms - {id}) && used == old(used)
    {
      var room := rooms[id];
      room.active := false;
      rooms := rooms - {id};
      assert OthersUntouched(id) by {
        forall i | i in rooms && i != id
          ensures Untouched(rooms[i])
        {
          assert rooms[i] != room;
        }
      }
      OneRoomRemoved(id);
    }

    /** `create_room_from_dict`, for a room in no container.  The id is new. */
    method CreateRoom(id: RoomId, sessions: Sessions, allow: seq<SessionId> -> bool, invited: seq<Invitation>,
                      transcripts: set<Name>) returns (room: Meeting?)
      requires Valid() && id !in used
      modifies this
      ensures Valid() && State() == Create(old(State()), id, sessions, allow, invited, transcripts)
      ensures room != null <==> SessionIds(sessions, invited) != [] && allow(SessionIds(sessions, invited))
      ensures rooms == if room == null then old(rooms) else old(rooms)[id := room]
      ensures room != null ==>
                && fresh(room) && room.active && room.transcripts == transcripts && room.moderation == null
                && room.historical == room.occupants
                && forall n :: n in room.occupants <==> IsOnline(sessions, invited, n)
    {
      hide Present, SessionIds, Enter, Create, IsOnline;
      CreateCases(State(), id, sessions, allow, invited, transcripts);
      PresentMeans(sessions, invited);
      var names, ids := Resolve(sessions, invited);
      SameRooms();
      if |ids| == 0 || !allow(ids) {
        return null;
      }
      label Resolved:
      room := NewRoom(transcripts, names);
      rooms := rooms[id := room];
      used := used + {id};
      OneRoomAdded@Resolved(id);
      NewRoomIsValid@Resolved(id);
    }

    static method NewRoom(transcripts: set<Name>, names: set<Name>) returns (room: Meeting)
      ensures fresh(room) && room.Valid() && room.moderation == null
      ensures room.State() == Enter(Room({}, {}, transcripts, None, 0, true), names)
      ensures room.active && room.transcripts == transcripts && room.occupants == room.historical == names
    {
      room := new Meeting();
      room.transcripts := transcripts;
      room.active := true;
      room.AddOccupantNames(names);
    }

    /** Nothing that was there before was written to. */
    twostate lemma SameRooms()
      requires old(Valid()) && rooms == old(rooms) && used == old(used)
      requires forall i | i in rooms :: Untouched(rooms[i])
      ensures Valid() && State() == old(State())
    {
      forall i | i in rooms
        ensures rooms[i].Valid() && rooms[i].State() == old(rooms[i].State())
      {
        rooms[i].StateStays();
      }
      assert State().rooms == old(State()).rooms;
    }

    twostate lemma OneRoomAdded(id: RoomId)
      requires id !in old(rooms) && id in rooms && rooms == old(rooms)[id := rooms[id]]
      requires used == old(used) + {id} && OthersUntouched(id)
      ensures State() == Server(old(State()).rooms[id := rooms[id].State()], old(used) + {id})
    {
      forall i | i in rooms && i != id
        ensures rooms[i].State() == old(rooms[i].State())
      {
        assert Untouched(rooms[i]);
        rooms[i].StateStays();
      }
      ghost var now, was := State().rooms, old(State()).rooms;
      assert now.Keys == was.Keys + {id} && now[id] == rooms[id].State();
      SameMap(now, was, id);
    }

    twostate lemma NewRoomIsValid(id: RoomId)
      requires old(Valid()) && id !in old(rooms) && id in rooms && rooms == old(rooms)[id := rooms[id]]
      requires used == old(used) + {id} && fresh(rooms[id]) && rooms[id].Valid()
      requires rooms[id].moderation == null && OthersUntouched(id)
      ensures Valid()
    {
      forall i | i in rooms && i != id
        ensures rooms[i].Valid() && rooms[i] != rooms[id]
      {
        assert Untouched(rooms[i]);
        rooms[i].StateStays();
      }
    }

    // ---------- Posting ----------

    /** The message is not waiting for approval in any room. */
    ghost predicate Unqueued(msg: MessageInfo)
      reads this, rooms.Values, set r | r in rooms.Values && r.moderation != null :: r.moderation
    {
      forall i | i in rooms :: rooms[i].Apart(msg)
    }

    method PostMessageToRoom(id: RoomId, valid: NtiidCheck, msg: MessageInfo) returns (result: Result)
      requires Valid() && Unqueued(msg)
      modifies if id in rooms then {rooms[id]} else {},
               if id in rooms && rooms[id].moderation != null then {rooms[id].moderation} else {}, msg
      ensures Valid() && rooms == old(rooms) && used == old(used)
      ensures State() == PostToRoom(old(State()), id, valid, old(msg.Value()))
      ensures id in rooms && old(rooms[id].active && msg.sender in rooms[id].occupants
                                 && msg.recipients != multiset{msg.sender}) ==>
                && result == Post(old(State()).rooms[id], valid, old(msg.Value())).result
                && rooms[id].sent == old(rooms[id].sent) + Post(old(State()).rooms[id], valid, old(msg.Value())).sent
      ensures !(id in rooms && old(rooms[id].active && msg.sender in rooms[id].occupants
                                   && msg.recipients != multiset{msg.sender})) ==>
                result == Refused && State() == old(State()) && unchanged(msg)
    {
      hide Post, RecipientsWithoutSender;
      ToSenderAlone(msg.Value());
      var room := GetMeeting(id);
      assert if room == null then id !in State().rooms else State().rooms[id] == room.State();
      if room == null || !room.active {
        return Refused;
      }
      if |msg.recipients| == 1 && RecipientsWithoutSender(msg.Value()) == {} {
        return Refused;
      }
      if msg.sender !in room.occupants {
        return Refused;
      }
      result := room.PostMessage(valid, msg);
      assert OthersUntouched(id) by {
        forall i | i in rooms && i != id
          ensures Untouched(rooms[i])
        {
          assert rooms[i] != room && old(rooms[i].Apart(msg));
        }
      }
      OneRoomChanged(id);
      OneRoomStaysValid(id);
    }
  }

  /** Somebody of this name is invited and has a session. */
  ghost predicate IsOnline(sessions: Sessions, invited: seq<Invitation>, n: Name)
  {
    exists i | 0 <= i < |invited| :: invited[i].name == n && sessions(invited[i].name, invited[i].session).Some?
  }

  lemma PresentMeans(sessions: Sessions, invited: seq<Invitation>)
    ensures forall n :: n in Present(sessions, invited) <==> IsOnline(sessions, invited, n)
  {
  }

  lemma CreateCases(s: Server, id: RoomId, sessions: Sessions, allow: seq<SessionId> -> bool, invited: seq<Invitation>,
                    transcripts: set<Name>)
    ensures var ids := SessionIds(sessions, invited);
            Create(s, id, sessions, allow, invited, transcripts)
            == if ids == [] || !allow(ids) then s
               else Server(s.rooms[id := Enter(Room({}, {}, transcripts, None, 0, true), Present(sessions, invited))],
                           s.used + {id})
  {
    hide Present, SessionIds, Enter;
  }

  /** Addressed to the sender alone. */
  lemma ToSenderAlone(m: Message)
    ensures |m.recipients| == 1 && RecipientsWithoutSender(m) == {} <==> m.recipients == multiset{m.sender}
  {
    if |m.recipients| == 1 {
      var x :| x in m.recipients;
      assert |m.recipients - multiset{x}| == 0;
      assert m.recipients == multiset{x};
      assert x == m.sender || x in RecipientsWithoutSender(m);
      assert forall n | n in RecipientsWithoutSender(m) :: n == x;
    }
  }

  lemma SameMap(now: map<RoomId, Room>, was: map<RoomId, Room>, id: RoomId)
    requires now.Keys == was.Keys + {id} && forall i | i in now && i != id :: now[i] == was[i]
    ensures now == was[id := now[id]]
  {
  }

  /** Resolves the invited to those online and their sessions. */
  method Resolve(sessions: Sessions, invited: seq<Invitation>) returns (names: set<Name>, ids: seq<SessionId>)
    ensures names == Present(sessions, invited) && ids == SessionIds(sessions, invited)
  {
    hide Present, SessionIds;
    names, ids := {}, [];
    ResolvedNobody(sessions);
    for i := 0 to |invited|
      invariant names == Present(sessions, invited[..i])
      invariant ids == SessionIds(sessions, invited[..i])
    {
      PresentOneMore(sessions, invited, i);
      SessionIdsOneMore(sessions, invited, i);
      var session := sessions(invited[i].name, invited[i].session);
      if session.Some? {
        names := names + {invited[i].name};
        ids := ids + [session.value];
      }
    }
    assert invited[..|invited|] == invited;
  }

  lemma ResolvedNobody(sessions: Sessions)
    ensures Present(sessions, []) == {} && SessionIds(sessions, []) == []
  {
  }

  lemma {:induction false} SessionIdsOneMore(sessions: Sessions, invited: seq<Invitation>, i: nat)
    requires i < |invited|
    ensures SessionIds(sessions, invited[..i + 1])
         == SessionIds(sessions, invited[..i])
            + match sessions(invited[i].name, invited[i].session) {
                case None => []
                case Some(session) => [session]
              }
    decreases i
  {
    if i == 0 {
      assert invited[..1][1..] == [];
    } else {
      SessionIdsOneMore(sessions, invited[1..], i - 1);
      assert invited[..i + 1][1..] == invited[1..][..i] && invited[..i][1..] == invited[1..][..i - 1];
    }
  }

  lemma PresentOneMore(sessions: Sessions, invited: seq<Invitation>, i: nat)
    requires i < |invited|
    ensures Present(sessions, invited[..i + 1])
         == Present(sessions, invited[..i])
            + if sessions(invited[i].name, invited[i].session).Some? then {invited[i].name} else {}
  {
    var s, t := invited[..i], invited[..i + 1];
    forall n | n in Present(sessions, s)
      ensures n in Present(sessions, t)
    {
      var k :| 0 <= k < |s| && sessions(s[k].name, s[k].session).Some? && s[k].name == n;
      assert t[k] == s[k];
    }
    assert t[i] == invited[i];
  }
}
