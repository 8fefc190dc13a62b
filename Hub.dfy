/** The connection registry of the chat server: the set of live connections
    (`clients`) and the name each has joined as (`userNames`), the
    bookkeeping done when a connection opens and closes, the read loop that
    handles one connection's frames, and the relay of a bus event to every
    registered connection. Operations run one at a time. */
module Hub {
  import Strings
  import opened Protocol
  import opened Effects

  /** The commands of a session's frames, in order. */
  function Commands(frames: seq<string>): (cmds: seq<Command>)
    ensures |cmds| == |frames|
  {
    seq(|frames|, k requires 0 <= k < |frames| => Parse(frames[k]))
  }

  /** The name a connection is bound to after the commands of its session,
      taken in order from no name (""): the name of its last join. */
  function BoundName(cmds: seq<Command>): string
    decreases |cmds|
  {
    if cmds == [] then ""
    else if cmds[|cmds| - 1].Join? then cmds[|cmds| - 1].name
    else BoundName(cmds[..|cmds| - 1])
  }

  /** The effects of the read loop of a session of connection `c`: the
      reaction to each command in turn, `clock[i]` being the time at which
      `cmds[i]` is handled. */
  function Transcript(c: Conn, cmds: seq<Command>, clock: seq<int>): seq<Effect>
    requires |clock| == |cmds|
    decreases |cmds|
  {
    if cmds == [] then []
    else
      var n := |cmds| - 1;
      Transcript(c, cmds[..n], clock[..n]) + Reaction(c, cmds[n], clock[n])
  }

  /** One more command: a join rebinds, anything else keeps the name. */
  lemma BoundNameStep(cmds: seq<Command>, i: nat)
    requires i < |cmds|
    ensures BoundName(cmds[..i + 1]) == if cmds[i].Join? then cmds[i].name else BoundName(cmds[..i])
  {
    assert cmds[..i + 1][..i] == cmds[..i];
  }

  /** Removing a connection that was not registered before undoes its
      binding. */
  lemma ForgetBinding(m: map<Conn, string>, c: Conn, name: string)
    requires c !in m
    ensures (if name == "" then m else m[c := name]) - {c} == m
  {
  }

  /** A later binding of a connection replaces the earlier one. */
  lemma RebindTwice(m: map<Conn, string>, c: Conn, a: string, b: string)
    ensures m[c := a][c := b] == m[c := b]
  {
  }

  /** One more command: its reaction follows those of the earlier ones. */
  lemma TranscriptStep(c: Conn, cmds: seq<Command>, clock: seq<int>, i: nat)
    requires |clock| == |cmds| && i < |cmds|
    ensures Transcript(c, cmds[..i + 1], clock[..i + 1])
            == Transcript(c, cmds[..i], clock[..i]) + Reaction(c, cmds[i], clock[i])
  {
    assert cmds[..i + 1][..i] == cmds[..i] && clock[..i + 1][..i] == clock[..i];
  }

  /** Last write wins: the bound name is the name of the last join. */
  lemma {:induction false} BoundNameIsLastJoin(cmds: seq<Command>, i: nat)
    requires i < |cmds| && cmds[i].Join?
    requires forall j | i < j < |cmds| :: !cmds[j].Join?
    ensures BoundName(cmds) == cmds[i].name
    decreases |cmds|
  {
    var n := |cmds| - 1;
    if i < n {
      BoundNameIsLastJoin(cmds[..n], i);
    }
  }

  /** A session has a bound name exactly when one of its commands is a join
      (the name of a parsed join is never empty). */
  lemma {:induction false} BoundNameWithoutJoin(cmds: seq<Command>)
    requires forall k | 0 <= k < |cmds| :: WellFormed(cmds[k])
    ensures BoundName(cmds) == "" <==> forall j | 0 <= j < |cmds| :: !cmds[j].Join?
    decreases |cmds|
  {
    if cmds != [] {
      var n := |cmds| - 1;
      BoundNameWithoutJoin(cmds[..n]);
    }
  }

  /** Within a session, every write and every private-topic listener is for
      the session's own connection. */
  lemma {:induction false} TranscriptConcernsOriginator(c: Conn, cmds: seq<Command>, clock: seq<int>)
    requires |clock| == |cmds|
    ensures forall e | e in Transcript(c, cmds, clock) && (e.Send? || e.Subscribe?) :: e.conn == c
    decreases |cmds|
  {
    if cmds != [] {
      var n := |cmds| - 1;
      TranscriptConcernsOriginator(c, cmds[..n], clock[..n]);
    }
  }

  /** Every join of a session starts a listener of that name's private topic
      for the connection. */
  lemma {:induction false} TranscriptSubscribesEachJoin(c: Conn, cmds: seq<Command>, clock: seq<int>, i: nat)
    requires |clock| == |cmds| && i < |cmds| && cmds[i].Join?
    ensures Subscribe(DmTopic(cmds[i].name), c) in Transcript(c, cmds, clock)
    decreases |cmds|
  {
    var n := |cmds| - 1;
    if i < n {
      TranscriptSubscribesEachJoin(c, cmds[..n], clock[..n], i);
    } else {
      assert Reaction(c, cmds[n], clock[n])[3] == Subscribe(DmTopic(cmds[i].name), c);
    }
  }

  /** Listeners are never stopped: a direct message to any name a session
      ever joined as is written to its connection, even after a later join
      has bound the connection to another name (and, once the connection is
      closed, the write is still attempted). */
  lemma JoinedNamesKeepDelivering(c: Conn, cmds: seq<Command>, clock: seq<int>, i: nat, payload: Payload)
    requires |clock| == |cmds| && i < |cmds| && cmds[i].Join?
    ensures Send(c, payload) in DmRoute(Transcript(c, cmds, clock), DmTopic(cmds[i].name), payload)
  {
    TranscriptSubscribesEachJoin(c, cmds, clock, i);
    DmRouteReaches(Transcript(c, cmds, clock), DmTopic(cmds[i].name), payload, c);
  }

  /** Names are not unique: two connections joined under one name both
      receive the direct messages sent to it. */
  lemma SharedNameBothReceive(c: Conn, c': Conn, name: string, now: int, now': int, payload: Payload)
    ensures var log := Reaction(c, Join(name), now) + Reaction(c', Join(name), now');
            Send(c, payload) in DmRoute(log, DmTopic(name), payload)
            && Send(c', payload) in DmRoute(log, DmTopic(name), payload)
  {
    var log := Reaction(c, Join(name), now) + Reaction(c', Join(name), now');
    assert log[3] == Subscribe(DmTopic(name), c) && log[7] == Subscribe(DmTopic(name), c');
    DmRouteReaches(log, DmTopic(name), payload, c);
    DmRouteReaches(log, DmTopic(name), payload, c');
  }

  /** One join starts one listener of its private topic: a direct message
      to the name is written once to the joining connection. */
  lemma JoinRoutesOnce(c: Conn, name: string, now: int, payload: Payload)
    ensures DmRoute(Reaction(c, Join(name), now), DmTopic(name), payload) == [Send(c, payload)]
  {
    var log := Reaction(c, Join(name), now);
    var topic := DmTopic(name);
    var sends := [Send(c, payload)];
    assert log[3..][1..] == [];
    assert DmRoute(log[3..], topic, payload) == sends;
    assert log[2..][1..] == log[3..] && log[2].Send?;
    assert DmRoute(log[2..], topic, payload) == sends;
    assert log[1..][1..] == log[2..] && log[1].Publish?;
    assert DmRoute(log[1..], topic, payload) == sends;
    assert log[0].SetAdd?;
  }

  /** Joining the same name twice on one connection starts two listeners of
      its private topic, so every direct message to that name is written to
      the connection twice. */
  lemma RepeatedJoinDeliversTwice(c: Conn, name: string, now: int, now': int, payload: Payload)
    ensures DmRoute(Reaction(c, Join(name), now) + Reaction(c, Join(name), now'), DmTopic(name), payload)
            == [Send(c, payload), Send(c, payload)]
  {
    DmRouteAppend(Reaction(c, Join(name), now), Reaction(c, Join(name), now'), DmTopic(name), payload);
    JoinRoutesOnce(c, name, now, payload);
    JoinRoutesOnce(c, name, now', payload);
  }

  /** A `join:` frame whose rest is empty or all spaces binds nothing and
      does nothing. */
  lemma BlankJoinIsSilent(c: Conn, frame: string, now: int)
    requires Strings.HasPrefix(frame, JoinPrefix) && Strings.AllSpace(frame[|JoinPrefix|..])
    ensures !Parse(frame).Join? && Reaction(c, Parse(frame), now) == []
  {
    ParseJoin(frame);
  }

  /** A `join:` frame with a name binds the trimmed name, adds it to the
      members set, announces it, welcomes the sender (and nobody else) and
      starts the listener of its private topic. */
  lemma JoinFrameEffects(c: Conn, frame: string, now: int)
    requires Strings.HasPrefix(frame, JoinPrefix) && !Strings.AllSpace(frame[|JoinPrefix|..])
    ensures var name := Strings.TrimSpace(frame[|JoinPrefix|..]);
            && Parse(frame) == Join(name)
            && Reaction(c, Parse(frame), now)
               == [ SetAdd(MembersKey, name), Publish(MemberAddTopic, Text(name)),
                    Send(c, Text("Welcome " + name + "!")), Subscribe("dm:" + name, c) ]
  {
    ParseJoin(frame);
  }

  /** The frame "dm:" + sender + ":" + receiver + ":" + text is stored under
      "chat:dm:" + sender + ":" + receiver, published on "dm:" + receiver
      and echoed to the sender, the three carrying one payload. */
  lemma DmFrameEffects(c: Conn, sender: string, receiver: string, text: string, now: int)
    requires Sep !in sender && Sep !in receiver
    ensures var frame := "dm:" + sender + ":" + receiver + ":" + text;
            var payload := Serialize(ChatMessage(sender, text, now));
            Reaction(c, Parse(frame), now)
            == [ LogAppend("chat:dm:" + sender + ":" + receiver, now, payload),
                 Publish("dm:" + receiver, payload), Send(c, payload) ]
  {
    ParseDm("dm:" + sender + ":" + receiver + ":" + text, sender, receiver, text);
  }

  /** The frame "msg:" + user + ":" + text is stored under "chat:messages"
      and published on "messages", and is not written back to the sender. */
  lemma MsgFrameEffects(c: Conn, user: string, text: string, now: int)
    requires Sep !in user
    ensures var frame := "msg:" + user + ":" + text;
            var payload := Serialize(ChatMessage(user, text, now));
            Reaction(c, Parse(frame), now)
            == [ LogAppend("chat:messages", now, payload), Publish("messages", payload) ]
  {
    ParseMsg("msg:" + user + ":" + text, user, text);
  }

  /** `writes` delivers `payload` once to each connection of `targets` and
      to no other. */
  ghost predicate DeliveredOnce(writes: seq<Effect>, targets: set<Conn>, payload: Payload) {
    && (forall i | 0 <= i < |writes| :: writes[i].Send? && writes[i].payload == payload && writes[i].conn in targets)
    && (forall c | c in targets :: Send(c, payload) in writes)
    && (forall i, j | 0 <= i < j < |writes| :: writes[i] != writes[j])
    && |writes| == |targets|
  }

  class Registry {
    var clients: set<Conn>
    var userNames: map<Conn, string>

    /** Only live connections have names, and a bound name is one a `join:`
        frame can bind: non-empty, without spaces at its ends. */
    ghost predicate Valid()
      reads this
    {
      && userNames.Keys <= clients
      && forall c | c in userNames :: WellFormed(Join(userNames[c]))
    }

    constructor ()
      ensures Valid() && clients == {} && userNames == map[]
    {
      clients := {};
      userNames := map[];
    }

    /** A new connection is registered, with no name. */
    method Connect(c: Conn)
      requires Valid()
      modifies this
      ensures Valid()
      ensures clients == old(clients) + {c} && userNames == old(userNames)
      ensures c !in old(clients) ==> c !in userNames
    {
      clients := clients + {c};
    }

    /** One frame read from connection `c` at time `now`: a join binds (or
        rebinds) the connection's name; every command yields its reaction. */
    method Handle(c: Conn, frame: string, now: int) returns (effects: seq<Effect>)
      requires Valid() && c in clients
      modifies this
      ensures Valid() && clients == old(clients)
      ensures Parse(frame).Join? ==> userNames == old(userNames)[c := Parse(frame).name]
      ensures !Parse(frame).Join? ==> userNames == old(userNames)
      ensures effects == Reaction(c, Parse(frame), now)
    {
      var cmd := Parse(frame);
      if cmd.Join? {
        userNames := userNames[c := cmd.name];
      }
      effects := Reaction(c, cmd, now);
    }

    /** A closed connection leaves both maps, and the other connections keep
        their entries; its member is removed and announced only when it had
        joined. */
    method Disconnect(c: Conn) returns (effects: seq<Effect>)
      requires Valid()
      modifies this
      ensures Valid()
      ensures clients == old(clients) - {c} && userNames == old(userNames) - {c}
      ensures effects == LeaveEffects(if c in old(userNames) then old(userNames)[c] else "")
      ensures effects == [] <==> c !in old(userNames)
    {
      var name := if c in userNames then userNames[c] else "";
      effects := LeaveEffects(name);
      userNames := userNames - {c};
      clients := clients - {c};
    }

    /** The relay loop of a listener: `payload` is written to every
        registered connection, once each, in no particular order. */
    method FanOut(payload: Payload) returns (writes: seq<Effect>)
      ensures DeliveredOnce(writes, clients, payload)
    {
      writes := [];
      var pending := clients;
      while pending != {}
        invariant pending <= clients
        invariant forall i | 0 <= i < |writes| ::
                    writes[i].Send? && writes[i].payload == payload && writes[i].conn in clients - pending
        invariant forall c | c in clients - pending :: Send(c, payload) in writes
        invariant forall i, j | 0 <= i < j < |writes| :: writes[i] != writes[j]
        invariant |writes| + |pending| == |clients|
        decreases pending
      {
        var c :| c in pending;
        writes := writes + [Send(c, payload)];
        pending := pending - {c};
      }
    }

    /** A bus event as the three long-lived listeners handle it: a public
        message is relayed as it is, a member event as a notice of its kind,
        each to every registered connection; no listener of these relays
        any other topic. */
    method Listen(topic: string, payload: Payload) returns (writes: seq<Effect>)
      ensures topic == PublicTopic ==> DeliveredOnce(writes, clients, payload)
      ensures topic == MemberAddTopic || topic == MemberRemoveTopic
              ==> DeliveredOnce(writes, clients, Notice(topic, payload))
      ensures !IsWellKnownTopic(topic) ==> writes == []
    {
      if topic == PublicTopic {
        writes := FanOut(payload);
      } else if topic == MemberAddTopic || topic == MemberRemoveTopic {
        writes := FanOut(Notice(topic, payload));
      } else {
        writes := [];
      }
    }

    /** The read loop of connection `c`: its frames are handled in order;
        the connection ends bound to the name of its last join, if any. */
    method ReadLoop(c: Conn, frames: seq<string>, clock: seq<int>) returns (effects: seq<Effect>)
      requires Valid() && c in clients && |clock| == |frames|
      modifies this
      ensures Valid() && clients == old(clients)
      ensures var name := BoundName(Commands(frames));
              userNames == if name == "" then old(userNames) else old(userNames)[c := name]
      ensures effects == Transcript(c, Commands(frames), clock)
    {
      ghost var cmds := Commands(frames);
      effects := [];
      for i := 0 to |frames|
        invariant Valid() && clients == old(clients)
        invariant userNames == if BoundName(cmds[..i]) == "" then old(userNames)
                               else old(userNames)[c := BoundName(cmds[..i])]
        invariant effects == Transcript(c, cmds[..i], clock[..i])
      {
        var reaction := Handle(c, frames[i], clock[i]);
        assert cmds[i] == Parse(frames[i]);
        BoundNameStep(cmds, i);
        if cmds[i].Join? && BoundName(cmds[..i]) != "" {
          RebindTwice(old(userNames), c, BoundName(cmds[..i]), cmds[i].name);
        }
        effects := effects + reaction;
        TranscriptStep(c, cmds, clock, i);
      }
      assert cmds[..|frames|] == cmds && clock[..|clock|] == clock;
    }

    /** The whole life of one connection: it is registered, its frames are
        handled in order, and on close it is removed again. The registry
        ends as it began, and the effects are those of the frames followed
        by the leave of the name last bound. */
    method Serve(c: Conn, frames: seq<string>, clock: seq<int>) returns (effects: seq<Effect>)
      requires Valid() && c !in clients && |clock| == |frames|
      modifies this
      ensures Valid() && clients == old(clients) && userNames == old(userNames)
      ensures effects == Transcript(c, Commands(frames), clock) + LeaveEffects(BoundName(Commands(frames)))
    {
      ghost var name := BoundName(Commands(frames));
      Connect(c);
      effects := ReadLoop(c, frames, clock);
      var leave := Disconnect(c);
      ForgetBinding(old(userNames), c, name);
      effects := effects + leave;
    }
  }
}
