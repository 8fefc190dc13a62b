/** What the server does in answer to a command, as values. The calls that
    main.go makes on Redis (SAdd, SRem, ZAdd, Publish, Subscribe) and the
    writes on a WebSocket connection are not performed: each becomes an
    `Effect`, and an operation returns the effects it would perform, in the
    order main.go performs them. */
module Effects {
  import Strings
  import opened Protocol

  /** An opaque handle on one live WebSocket connection. */
  type Conn = nat

  /** The record that is stored and sent for public and direct messages;
      `time` is seconds since the Unix epoch. */
  datatype ChatMessage = ChatMessage(user: string, text: string, time: int)

  /** The bytes of one stored, published or written payload, kept symbolic:
      `Encoded(m)` stands for the JSON encoding of `m`, and `Notice(kind,
      name)` for the JSON object {"type": kind, "name": name} that the
      presence listeners write. */
  datatype Payload =
    | Text(s: string)
    | Encoded(msg: ChatMessage)
    | Notice(kind: string, name: Payload)

  /** The JSON encoder, as an opaque constructor: no property of the encoded
      bytes is used beyond their being a function of the record. */
  function Serialize(m: ChatMessage): Payload {
    Encoded(m)
  }

  datatype Effect =
    | SetAdd(key: string, member: string)               // SAdd on the members set
    | SetRemove(key: string, member: string)            // SRem on the members set
    | LogAppend(key: string, score: int, entry: Payload)  // ZAdd to a history
    | Publish(topic: string, payload: Payload)          // Publish on the bus
    | Send(conn: Conn, payload: Payload)                // a write on one connection
    | Subscribe(topic: string, conn: Conn)              // a listener that relays `topic` to `conn`

  const MembersKey := "chat:members"
  const PublicKey := "chat:messages"
  const PublicTopic := "messages"
  const MemberAddTopic := "member_add"
  const MemberRemoveTopic := "member_remove"

  /** The history of the direct messages from `sender` to `receiver`. */
  function DmKey(sender: string, receiver: string): string {
    "chat:dm:" + sender + [Sep] + receiver
  }

  /** The private topic of `user`. */
  function DmTopic(user: string): string {
    "dm:" + user
  }

  function Welcome(name: string): string {
    "Welcome " + name + "!"
  }

  predicate IsWellKnownTopic(topic: string) {
    topic == PublicTopic || topic == MemberAddTopic || topic == MemberRemoveTopic
  }

  /** What one command from connection `c`, handled at time `now`, does
      beyond the registry: nothing for an ignored frame; writes and
      listeners only for `c` itself; a written reply only for joins and
      direct messages (a public message reaches its sender through the
      public topic like everybody else); and the entry stored in a history
      is exactly the payload that is published and echoed. */
  function Reaction(c: Conn, cmd: Command, now: int): (effects: seq<Effect>)
    ensures effects == [] <==> cmd.Ignored?
    ensures forall e | e in effects && (e.Send? || e.Subscribe?) :: e.conn == c
    ensures (exists e | e in effects :: e.Send?) <==> cmd.Join? || cmd.Dm?
    ensures forall e, e' | e in effects && e' in effects && e.LogAppend? && (e'.Publish? || e'.Send?)
              :: e'.payload == e.entry && e.score == now
  {
    match cmd
    case Join(name) =>
      var welcome := Send(c, Text(Welcome(name)));
      var effects := [ SetAdd(MembersKey, name), Publish(MemberAddTopic, Text(name)),
                       welcome, Subscribe(DmTopic(name), c) ];
      assert welcome in effects;
      effects
    case Dm(sender, receiver, text) =>
      var payload := Serialize(ChatMessage(sender, text, now));
      var echo := Send(c, payload);
      var effects := [ LogAppend(DmKey(sender, receiver), now, payload),
                       Publish(DmTopic(receiver), payload), echo ];
      assert echo in effects;
      effects
    case Msg(user, text) =>
      var payload := Serialize(ChatMessage(user, text, now));
      [ LogAppend(PublicKey, now, payload), Publish(PublicTopic, payload) ]
    case Ignored =>
      []
  }

  /** What closing a connection that was bound to `name` ("" when it never
      joined) does beyond the registry: nothing for a connection that never
      joined, otherwise the member leaves the set and is announced. */
  function LeaveEffects(name: string): (effects: seq<Effect>)
    ensures effects == [] <==> name == ""
    ensures forall e | e in effects :: !e.Send? && !e.Subscribe?
  {
    if name != "" then [SetRemove(MembersKey, name), Publish(MemberRemoveTopic, Text(name))] else []
  }

  /** Closing a connection that joined as `name` removes that name from
      "chat:members" and announces it on "member_remove", in that order;
      it neither adds a member nor announces a join. */
  lemma NamedLeaveEffects(name: string)
    requires name != ""
    ensures LeaveEffects(name)
            == [SetRemove("chat:members", name), Publish("member_remove", Text(name))]
    ensures forall e | e in LeaveEffects(name) :: !e.SetAdd? && !(e.Publish? && e.topic == MemberAddTopic)
  {
    assert MemberRemoveTopic != MemberAddTopic by { assert MemberRemoveTopic[7] != MemberAddTopic[7]; }
  }

  /** The history key of a direct message determines both names, in order,
      since a parsed sender holds no `:`. */
  lemma DmKeyInjective(sender: string, receiver: string, sender': string, receiver': string)
    requires Sep !in sender && Sep !in sender'
    ensures DmKey(sender, receiver) == DmKey(sender', receiver')
            <==> sender == sender' && receiver == receiver'
  {
    var prefix := "chat:dm:";
    var k, k' := DmKey(sender, receiver), DmKey(sender', receiver');
    if k == k' {
      var rest := sender + [Sep] + receiver;
      var rest' := sender' + [Sep] + receiver';
      assert k == prefix + rest && k' == prefix + rest';
      assert rest == k[|prefix|..] == rest';
      Strings.IndexAfterField(sender, Sep, receiver);
      Strings.IndexAfterField(sender', Sep, receiver');
      Strings.FieldsAround(sender, Sep, receiver);
      Strings.FieldsAround(sender', Sep, receiver');
    }
  }

  /** Direct messages are filed by (sender, receiver) in that order: the two
      directions of one conversation go to two different histories. */
  lemma DmKeyIsOrdered(a: string, b: string)
    requires Sep !in a && Sep !in b && a != b
    ensures DmKey(a, b) != DmKey(b, a)
  {
    DmKeyInjective(a, b, b, a);
  }

  /** A direct-message history never shares its key with the public history
      or with the members set. */
  lemma DmKeyIsSeparate(sender: string, receiver: string)
    ensures DmKey(sender, receiver) != PublicKey
    ensures DmKey(sender, receiver) != MembersKey
  {
    var k := DmKey(sender, receiver);
    assert k[5] == 'd' && PublicKey[5] == 'm' && MembersKey[5] == 'm';
  }

  /** Private topics are distinct per user and never one of the topics that
      are relayed to every connection. */
  lemma DmTopicIsPrivate(user: string, user': string)
    ensures !IsWellKnownTopic(DmTopic(user))
    ensures DmTopic(user) == DmTopic(user') <==> user == user'
  {
    var t := DmTopic(user);
    assert t[0] == 'd';
    if DmTopic(user) == DmTopic(user') {
      assert user == t[3..] == user';
    }
  }

  /** A direct message is stored under the ordered key of its two names and
      published on the receiver's private topic only: nothing of it goes to
      the public history or to a topic relayed to every connection. */
  lemma DmStaysPrivate(c: Conn, cmd: Command, now: int)
    requires cmd.Dm?
    ensures forall e | e in Reaction(c, cmd, now) && e.Publish? ::
              e.topic == DmTopic(cmd.receiver) && !IsWellKnownTopic(e.topic)
    ensures forall e | e in Reaction(c, cmd, now) && e.LogAppend? ::
              e.key == DmKey(cmd.sender, cmd.receiver) && e.key != PublicKey
  {
    DmTopicIsPrivate(cmd.receiver, cmd.receiver);
    DmKeyIsSeparate(cmd.sender, cmd.receiver);
  }

  /** The sends that the private-topic listeners make when `payload` is
      published on `topic`, given the listeners started so far (the
      `Subscribe` effects in `log`, oldest first): one per listener of that
      topic. Listeners are never stopped. */
  function DmRoute(log: seq<Effect>, topic: string, payload: Payload): (sends: seq<Effect>)
    ensures forall e | e in sends :: e.Send? && e.payload == payload
    ensures |sends| <= |log|
  {
    if log == [] then []
    else
      var rest := DmRoute(log[1..], topic, payload);
      if log[0].Subscribe? && log[0].topic == topic then [Send(log[0].conn, payload)] + rest else rest
  }

  /** The listeners started in two stretches of a log deliver what each
      stretch's listeners deliver, oldest first. */
  lemma {:induction false} DmRouteAppend(log: seq<Effect>, log': seq<Effect>, topic: string, payload: Payload)
    ensures DmRoute(log + log', topic, payload) == DmRoute(log, topic, payload) + DmRoute(log', topic, payload)
    decreases |log|
  {
    if log == [] {
      assert log + log' == log';
    } else {
      assert (log + log')[1..] == log[1..] + log';
      DmRouteAppend(log[1..], log', topic, payload);
    }
  }

  /** A payload published on a private topic reaches a connection exactly
      when a listener for that topic was started for it. */
  lemma {:induction false} DmRouteReaches(log: seq<Effect>, topic: string, payload: Payload, c: Conn)
    ensures Send(c, payload) in DmRoute(log, topic, payload) <==> Subscribe(topic, c) in log
  {
    if log != [] {
      DmRouteReaches(log[1..], topic, payload, c);
      assert log == [log[0]] + log[1..];
    }
  }
}
