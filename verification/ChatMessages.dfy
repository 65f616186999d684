/** Chat messages, their recipients, and what is sent to users. */
module ChatMessages {
  import opened Options

  type Name = string
  type MessageId = nat

  datatype Channel = DEFAULT | WHISPER | CONTENT | POLL | META | STATE | Unknown(name: string)

  datatype Status = Initial | Pending | Posted | Shadowed

  /** A list of strings and canvases, or a mapping with distinct keys. */
  datatype Body = Absent | Parts(parts: seq<string>) | Mapping(fields: seq<(string, string)>)

  datatype Message = Message(
    id: MessageId,
    sender: Name,
    channel: Option<Channel>,
    body: Body,
    recipients: multiset<Name>,
    isReply: bool,
    status: Status,
    sharedWith: set<Name>)

  /** One event sent to one user. */
  datatype Kind = Received | ForModeration | ForShadow
  datatype Delivery = Delivery(kind: Kind, to: Name, id: MessageId)

  /** The notification that a message was posted, with the names that get the transcript. */
  datatype Notice = Notice(id: MessageId, names: set<Name>)

  /** What a room announces, and to whom. */
  datatype Event = EnteredRoom | ExitedRoom | MembershipChanged | ModerationChanged
  datatype Announcement = Announcement(event: Event, to: set<Name>)

  function RecipientsWithoutSender(m: Message): set<Name>
  {
    (set n | n in m.recipients) - {m.sender}
  }

  function RecipientsWithSender(m: Message): set<Name>
  {
    (set n | n in m.recipients) + {m.sender}
  }

  /** A message without a channel is an ordinary one. */
  function ChannelOf(m: Message): (c: Channel)
    ensures m.channel in {Some(c), None} && (m.channel == None ==> c == DEFAULT)
  {
    if m.channel.None? then DEFAULT else m.channel.value
  }

  function Lengths(parts: seq<string>): nat
  {
    if parts == [] then 0 else |parts[0]| + Lengths(parts[1..])
  }

  function KeyLengths(fields: seq<(string, string)>): nat
  {
    if fields == [] then 0 else |fields[0].0| + KeyLengths(fields[1..])
  }

  function BodyLength(b: Body): nat
  {
    match b
    case Absent => 0
    case Parts(parts) => Lengths(parts)
    case Mapping(fields) => KeyLengths(fields)
  }

  /** The value of a key. */
  function Lookup(fields: seq<(string, string)>, key: string): (r: Option<string>)
    ensures r.Some? ==> (key, r.value) in fields
    ensures r.None? ==> forall v :: (key, v) !in fields
  {
    if fields == [] then None
    else if fields[0].0 == key then Some(fields[0].1)
    else Lookup(fields[1..], key)
  }

  /** With distinct keys there is one value. */
  lemma {:induction false} LookupFinds(fields: seq<(string, string)>, key: string, v: string)
    requires forall i, j | 0 <= i < j < |fields| :: fields[i].0 != fields[j].0
    ensures Lookup(fields, key) == Some(v) <==> (key, v) in fields
  {
    if fields != [] && fields[0].0 != key {
      LookupFinds(fields[1..], key, v);
    }
  }

  /** The length of a body is that of all its parts together, or of all its keys. */
  lemma {:induction false} LengthsAdd(a: seq<string>, b: seq<string>)
    ensures Lengths(a + b) == Lengths(a) + Lengths(b)
    ensures |a| == 1 ==> Lengths(a) == |a[0]|
    ensures BodyLength(Parts(a)) == Lengths(a) && BodyLength(Absent) == 0
  {
    if a == [] {
      assert a + b == b;
    } else {
      assert (a + b)[1..] == a[1..] + b;
      LengthsAdd(a[1..], b);
    }
  }

  lemma {:induction false} KeyLengthsAdd(a: seq<(string, string)>, b: seq<(string, string)>)
    ensures KeyLengths(a + b) == KeyLengths(a) + KeyLengths(b)
    ensures |a| == 1 ==> KeyLengths(a) == |a[0].0|
    ensures BodyLength(Mapping(a)) == KeyLengths(a)
  {
    if a == [] {
      assert a + b == b;
    } else {
      assert (a + b)[1..] == a[1..] + b;
      KeyLengthsAdd(a[1..], b);
    }
  }

  /** The same event for every name of a set. */
  function ToAll(kind: Kind, names: set<Name>, id: MessageId): multiset<Delivery>
  {
    multiset(set n | n in names :: Delivery(kind, n, id))
  }

  lemma ToAllCount(kind: Kind, names: set<Name>, id: MessageId, x: Delivery)
    ensures ToAll(kind, names, id)[x] == if x.kind == kind && x.id == id && x.to in names then 1 else 0
  {
    var s := set n | n in names :: Delivery(kind, n, id);
    assert x in s <==> x.kind == kind && x.id == id && x.to in names;
  }
}
