# Chat hub: a verified model of the WebSocket/Redis chat server

The server in `main.go` accepts WebSocket connections, reads text frames from
each one, and classifies every frame as one of four commands:

- a join, `join:<name>`;
- a direct message, `dm:<sender>:<receiver>:<text>`;
- a public message, `msg:<user>:<text>`;
- nothing (the frame is ignored).

It keeps two registries: the live connections (`clients`) and the name each
connection joined as (`userNames`). It stores and publishes messages through
Redis, and it relays what is published on the bus back to the connections.

This project models that core in Dafny as four modules:

- `Strings` models the three functions of Go's `strings` package that the read
  loop uses: `HasPrefix`, `TrimSpace` and `SplitN`. It adds `Index`, `Join`
  and `Count`, which state their meaning:
  - `TrimSpace` trims exactly the characters that Go's `unicode.IsSpace`
    accepts;
  - `SplitN` cuts at the first `n - 1` separators;
  - `Join` inverts `SplitN`, and `SplitN` inverts `Join` when the fields hold
    no separator.
- `Protocol` holds the frame grammar:
  - `Parse` is the classification at `main.go:85-150`;
  - `Render` is the frame a client sends for a command;
  - the round trip between the two, and one if-and-only-if lemma per command
    kind.
- `Effects` describes what a command does beyond the registries, as a sequence
  of `Effect` values in the order `main.go` performs them. The effects are
  Redis set and sorted-set writes, publishes, writes on a connection, and the
  start of a private-topic listener.
  - The history keys and topic names live here too.
  - So does `DmRoute`, the delivery of a private-topic publish by the
    listeners that joins started.
- `Hub` holds the class `Registry`, with the two registries as fields:
  - `Connect`, `Handle` and `Disconnect` update the registries in place;
  - `FanOut` and `Listen` are the relay loops of the long-lived listeners;
  - `ReadLoop` and `Serve` cover a connection's whole life;
  - lemmas state what a whole session does, as a function of its frames
    (`BoundName`, `Transcript`).

The wall clock is a parameter: one timestamp per frame. JSON encoding is the
opaque constructor `Serialize`.

`Registry.Valid` states the registry invariant: only live connections have
names, and every bound name is one a join can bind (non-empty, no space at
either end).

**The private-topic listener is never stopped.** `main.go:99` starts one
listener per join. Nothing stops it: not a later join, and not the
disconnect. The model follows the code:

- a session's effects contain one `Subscribe` per join;
- nothing removes a `Subscribe`;
- a direct message to any name the connection ever joined as is still
  delivered to it while it is open, and a write is still attempted after it
  closes (`Hub.JoinedNamesKeepDelivering`);
- a connection that joins the same name twice runs two listeners of that
  name's topic, so it is written every direct message to that name twice
  (`Hub.RepeatedJoinDeliversTwice`).

A design that cancels the listener when the connection rebinds would deliver
only to the last name, and once per connection. This model states what the
code does instead.

## Model

| member | source | states |
|---|---|---|
| Strings.TrimLeftIsSuffix | main.go:89 | the left trim keeps a suffix of the input; everything it drops is white space; what it keeps starts with a non-space |
| Strings.TrimRightIsPrefix | main.go:89 | the right trim keeps a prefix of the input; everything it drops is white space; what it keeps ends with a non-space |
| Strings.TrimSpaceTrims | main.go:89-90 | the trimmed name has no space at either end, and is empty exactly when the input is empty or all spaces |
| Strings.TrimSpaceIsSlice | main.go:89 | the trimmed name is a contiguous slice of the input, and everything cut off around it is white space |
| Strings.TrimSpaceOfTrimmed | main.go:89 | trimming a string with no space at its ends returns it unchanged |
| Strings.TrimLeftPadded | main.go:89 | leading white space in front of a non-space is removed, and nothing else is |
| Strings.TrimRightPadded | main.go:89 | trailing white space after a non-space is removed, and nothing else is |
| Strings.TrimSpacePadded | main.go:89 | a trimmed core padded with white space on both sides trims back to the core |
| Strings.IndexIsFirst | main.go:105 | the search returns -1 exactly when the separator is absent; otherwise it returns a position holding the separator, with no separator before it |
| Strings.IndexAfterField | main.go:105 | for a separator-free field followed by the separator, the first separator sits right after the field |
| Strings.SplitN | main.go:105 | splitting with limit n yields between 1 and n fields |
| Strings.SplitNAfterField | main.go:105 | a separator-free first field is split off, and the rest is split with one field fewer |
| Strings.SplitNFields | main.go:105-111 | no field except the last holds the separator; the last holds none either when fewer than n fields come back |
| Strings.JoinSplitN | main.go:105 | joining the fields of a split with the separator gives back the input |
| Strings.SplitNJoin | main.go:105 | splitting the join of separator-free fields (the last may hold separators when there are n) gives back those fields |
| Strings.CountNone | main.go:105-106 | the separator count is zero exactly when the separator is absent |
| Strings.CountIsOccurrences | main.go:105-106 | the separator count is the number of occurrences of the separator in the text |
| Strings.SplitNLength | main.go:105-108 | a split returns one field more than the number of separators, capped at n |
| Protocol.Parse | main.go:85-150 | every parsed command is well-formed: a joined name is non-empty and trimmed, and a split-off name holds no colon |
| Protocol.ParseRender | main.go:88-150 | every well-formed command is parsed back from the frame that renders it |
| Protocol.ParseJoin | main.go:88-93 | a join frame is ignored exactly when its rest is empty or all spaces; otherwise it binds the trimmed rest |
| Protocol.ParseDm | main.go:104-111 | a frame parses to Dm(s, r, t) if and only if it is "dm:" + s + ":" + r + ":" + t with no colon in s or r; the text keeps every later colon |
| Protocol.ParseMsg | main.go:133-139 | a frame parses to Msg(u, t) if and only if it is "msg:" + u + ":" + t with no colon in u; the text keeps every later colon |
| Protocol.ParseDmMissingFields | main.go:105-108 | a dm frame is dropped exactly when fewer than two colons follow its prefix; empty fields are accepted |
| Protocol.ParseMsgMissingFields | main.go:134-137 | a msg frame is dropped exactly when no colon follows its prefix |
| Protocol.ParseByPrefix | main.go:88-150 | the prefix decides the command kind (join, then dm, then msg); a frame with none of the three prefixes is ignored |
| Protocol.ParseMsgExample | main.go:133-139 | "msg:alice:hello:world" parses to user alice and text "hello:world" |
| Protocol.ParseDmExample | main.go:104-111 | "dm:alice:bob:secret:code" parses to sender alice, receiver bob and text "secret:code" |
| Protocol.ParseBlankJoinExample | main.go:88-92 | "join:" followed by spaces only is ignored |
| Protocol.ParsePaddedJoinExample | main.go:89 | "join:  alice " binds the name alice |
| Effects.Reaction | main.go:88-149 | an ignored frame does nothing, and every other command does something; writes and listeners are only for the originating connection; only joins and direct messages write back to the sender; the stored entry, the published payload and the echo are one payload, scored with the frame's time |
| Effects.LeaveEffects | main.go:49-54 | closing a connection does nothing exactly when it never joined; closing never writes to a connection or starts a listener |
| Effects.NamedLeaveEffects | main.go:51-54 | closing a connection that joined as a name emits exactly SRem of that name from "chat:members" and then its publish on "member_remove"; it never adds a member or announces a join |
| Effects.DmKeyInjective | main.go:121 | the direct-message history key determines sender and receiver, in order (parsed names hold no colon) |
| Effects.DmKeyIsOrdered | main.go:121 | the two directions of one conversation are kept under two different keys |
| Effects.DmKeyIsSeparate | main.go:121-122 | a direct-message key never equals the public history key or the members set key |
| Effects.DmTopicIsPrivate | main.go:125 | private topics are distinct per user and never one of the topics relayed to every connection |
| Effects.DmStaysPrivate | main.go:120-125 | a direct message is published only on the receiver's private topic, and stored only under its ordered key, never in the public history |
| Effects.DmRoute | main.go:194-199 | a private-topic publish yields only writes of that payload, at most one per entry of the log |
| Effects.DmRouteAppend | main.go:194-199 | the listeners started in two stretches of a log deliver what each stretch delivers, in log order |
| Effects.DmRouteReaches | main.go:194-199 | a private-topic publish reaches a connection if and only if a listener for that topic was started for it |
| Hub.BoundNameIsLastJoin | main.go:93 | last write wins: a session is bound to the name of its last join |
| Hub.BoundNameWithoutJoin | main.go:88-93 | a session has no bound name if and only if none of its commands is a join |
| Hub.TranscriptConcernsOriginator | main.go:96-128 | every write and every listener a session causes is for that session's own connection |
| Hub.TranscriptSubscribesEachJoin | main.go:99 | every join of a session starts a listener of that name's private topic for the connection |
| Hub.JoinedNamesKeepDelivering | main.go:99 | a direct message to any name a session ever joined as reaches its connection, even after a rebind |
| Hub.SharedNameBothReceive | main.go:93-99 | two connections joined under one name both receive the direct messages sent to it |
| Hub.JoinRoutesOnce | main.go:99 | one join makes a direct message to the name be written exactly once to the joining connection |
| Hub.RepeatedJoinDeliversTwice | main.go:99 | a connection that joins the same name twice is written each direct message to that name twice |
| Hub.BlankJoinIsSilent | main.go:88-92 | a join frame whose rest is empty or all spaces binds nothing and does nothing |
| Hub.JoinFrameEffects | main.go:88-99 | a join with a name adds it to the members set, announces it on member_add, writes "Welcome " + name + "!" to the sender only, and starts the listener of "dm:" + name |
| Hub.DmFrameEffects | main.go:104-128 | a direct message is appended to "chat:dm:" + sender + ":" + receiver, published on "dm:" + receiver, and echoed to the sender, all with one payload |
| Hub.MsgFrameEffects | main.go:133-149 | a public message is appended to "chat:messages" and published on "messages", with no write back to the sender |
| Hub.Registry.constructor | main.go:26-27 | the registries start empty and valid |
| Hub.Registry.Connect | main.go:46 | a new connection is registered without a name, and nothing else changes |
| Hub.Registry.Handle | main.go:85-150 | a join binds or replaces the connection's name; any other frame leaves the registries unchanged; the effects are the command's reaction; the invariant is kept |
| Hub.Registry.Disconnect | main.go:49-56 | the connection leaves both registries and the other entries stay; the member is removed from "chat:members" and announced on "member_remove" exactly when it had joined (with NamedLeaveEffects) |
| Hub.Registry.FanOut | main.go:159-161 | a public payload is written exactly once to each registered connection, and to no other |
| Hub.Registry.Listen | main.go:155-191 | public messages are relayed as they are, and member events as notices of their kind, each once to every registered connection; other topics reach no shared listener |
| Hub.Registry.ReadLoop | main.go:78-151 | frames are handled in order; the connection ends bound to its last joined name (or its old binding when it never joined); the effects are the session's transcript |
| Hub.Registry.Serve | main.go:38-152 | over a connection's whole life, the registries end as they began; the effects are the session's transcript followed by the leave of the last bound name |

## Left out

- `conn.Close()` (`main.go:57`) is not modelled. A `Send` that `DmRoute` yields for a connection already disconnected stands for the failing write at `main.go:198`.
- The logging at `main.go:35`, `41`, `45` and `81` (`fmt.Println`, `log.Println`) has no effect on the registries or the effects, and is left out.
- The WebSocket upgrade and the reading of frames (`main.go:39-45`, `79-83`) are left out. The frames a connection delivers before a read error are a parameter. Whether a write fails is not modelled.
- The Redis client is not called. Each call is an `Effect` value, in the order `main.go` makes it. The store's own semantics are not modelled: set deduplication, sorted-set order, and delivery to other processes.
- The snapshot of members and the last 20 public messages sent at connect (`main.go:61-75`) is left out. It is a Redis read followed by one JSON write, and the frames' classification does not depend on it.
- The `float64` history score (`main.go:122`, `148`) is kept as the integer timestamp.
- JSON encoding and decoding are left out. `Serialize` is an opaque constructor, and `Notice` stands for the `{"type", "name"}` object of the member listeners. No encoding round trip is stated.
- `time.Now()` is left out. Each frame comes with its timestamp.
- Goroutines and the unsynchronised access to the shared maps are left out. The model is sequential, one method call at a time. A listener is a `Subscribe` effect, and delivery on its topic is `DmRoute`.
- The listeners' `for c := range clients` loops run on the registry as it stands when the event is handled (`FanOut`). Concurrent changes to the registry during the loop are not modelled.
- `initRedis`, `main` and the HTTP server setup (`main.go:30-36`, `202-211`) are startup plumbing and are left out.
- A frame is taken as a sequence of Unicode scalar values. The byte slicing `text[5:]`, `text[3:]` and `text[4:]` cuts after an ASCII prefix, so it agrees with cutting characters. Frames that are not valid UTF-8 are left out.
- Nothing of `strings.TrimSpace` is approximated. `IsSpace` lists exactly the characters that Go's `unicode.IsSpace` accepts: the Latin-1 spaces, U+0085, U+00A0, and the White_Space property above Latin-1.
- The order in which a relay loop writes to the connections is left unspecified, because Go's map iteration order is unspecified.
