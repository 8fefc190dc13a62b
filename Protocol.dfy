/** The inbound command grammar of the chat server (main.go, the read loop of
    handleWebSocket): one text frame is classified as a join, a direct
    message, a public message, or nothing. The prefixes are tried in the
    order `join:`, `dm:`, `msg:`; a frame that none of them fits, or whose
    fields are missing, is dropped without a reply. */
module Protocol {
  import Strings

  const JoinPrefix := "join:"
  const DmPrefix := "dm:"
  const MsgPrefix := "msg:"

  /** The character that separates the fields of `dm:` and `msg:` frames. */
  const Sep := ':'

  datatype Command =
    | Join(name: string)
    | Dm(sender: string, receiver: string, text: string)
    | Msg(user: string, text: string)
    | Ignored

  /** What a parsed command can look like: a joined name is non-empty and
      carries no spaces at its ends, and the fields split off at a `:` hold
      no `:` themselves. The message text may hold any character. */
  predicate WellFormed(cmd: Command) {
    match cmd
    case Join(name) => name != "" && Strings.Trimmed(name)
    case Dm(sender, receiver, _) => Sep !in sender && Sep !in receiver
    case Msg(user, _) => Sep !in user
    case Ignored => true
  }

  /** The classification of one inbound frame. */
  function Parse(frame: string): (cmd: Command)
    ensures WellFormed(cmd)
  {
    if Strings.HasPrefix(frame, JoinPrefix) then
      var name := Strings.TrimSpace(frame[|JoinPrefix|..]);
      Strings.TrimSpaceTrims(frame[|JoinPrefix|..]);
      if name == "" then Ignored else Join(name)
    else if Strings.HasPrefix(frame, DmPrefix) then
      var parts := Strings.SplitN(frame[|DmPrefix|..], Sep, 3);
      Strings.SplitNFields(frame[|DmPrefix|..], Sep, 3);
      if |parts| < 3 then Ignored else Dm(parts[0], parts[1], parts[2])
    else if Strings.HasPrefix(frame, MsgPrefix) then
      var parts := Strings.SplitN(frame[|MsgPrefix|..], Sep, 2);
      Strings.SplitNFields(frame[|MsgPrefix|..], Sep, 2);
      if |parts| < 2 then Ignored else Msg(parts[0], parts[1])
    else
      Ignored
  }

  /** The frame a client sends for a command, following the grammar
      `join:<name>`, `dm:<sender>:<receiver>:<text>`, `msg:<user>:<text>`;
      the empty frame stands for the ignored command. */
  function Render(cmd: Command): string {
    match cmd
    case Join(name) => JoinPrefix + name
    case Dm(sender, receiver, text) => DmPrefix + Strings.Join([sender, receiver, text], Sep)
    case Msg(user, text) => MsgPrefix + Strings.Join([user, text], Sep)
    case Ignored => ""
  }

  lemma JoinOfThree(a: string, b: string, c: string)
    ensures Strings.Join([a, b, c], Sep) == a + [Sep] + b + [Sep] + c
  {
    assert [a, b, c][1..] == [b, c];
    assert [b, c][1..] == [c];
    assert Strings.Join([b, c], Sep) == b + [Sep] + c;
  }

  lemma JoinOfTwo(a: string, b: string)
    ensures Strings.Join([a, b], Sep) == a + [Sep] + b
  {
    assert [a, b][1..] == [b];
  }

  /** Round trip: every well-formed command is read back from the frame that
      renders it. */
  lemma ParseRender(cmd: Command)
    requires WellFormed(cmd)
    ensures Parse(Render(cmd)) == cmd
  {
    var frame := Render(cmd);
    match cmd
    case Join(name) =>
      assert frame[..|JoinPrefix|] == JoinPrefix;
      assert frame[|JoinPrefix|..] == name;
      Strings.TrimSpaceOfTrimmed(name);
    case Dm(sender, receiver, text) =>
      var parts := [sender, receiver, text];
      assert frame[..|DmPrefix|] == DmPrefix;
      assert frame[|DmPrefix|..] == Strings.Join(parts, Sep);
      assert !Strings.HasPrefix(frame, JoinPrefix) by { assert frame[0] != JoinPrefix[0]; }
      Strings.SplitNJoin(parts, Sep, 3);
    case Msg(user, text) =>
      var parts := [user, text];
      assert frame[..|MsgPrefix|] == MsgPrefix;
      assert frame[|MsgPrefix|..] == Strings.Join(parts, Sep);
      assert !Strings.HasPrefix(frame, JoinPrefix) by { assert frame[0] != JoinPrefix[0]; }
      assert !Strings.HasPrefix(frame, DmPrefix) by { assert frame[0] != DmPrefix[0]; }
      Strings.SplitNJoin(parts, Sep, 2);
    case Ignored =>
  }

  /** A `dm:` frame is parsed to (sender, receiver, text) exactly when it is
      "dm:" + sender + ":" + receiver + ":" + text with no `:` in the sender
      or the receiver: the first two colons after the prefix end the two
      names, and every later colon belongs to the text. */
  lemma ParseDm(frame: string, sender: string, receiver: string, text: string)
    ensures Parse(frame) == Dm(sender, receiver, text)
        <==> frame == DmPrefix + sender + [Sep] + receiver + [Sep] + text
             && Sep !in sender && Sep !in receiver
  {
    var cmd := Dm(sender, receiver, text);
    JoinOfThree(sender, receiver, text);
    assert Render(cmd) == DmPrefix + sender + [Sep] + receiver + [Sep] + text;
    if Parse(frame) == cmd {
      assert Strings.HasPrefix(frame, DmPrefix);
      var rest := frame[|DmPrefix|..];
      var parts := Strings.SplitN(rest, Sep, 3);
      assert parts == [sender, receiver, text];
      Strings.JoinSplitN(rest, Sep, 3);
      assert frame == DmPrefix + rest;
    }
    if frame == Render(cmd) && WellFormed(cmd) {
      ParseRender(cmd);
    }
  }

  /** A `msg:` frame is parsed to (user, text) exactly when it is
      "msg:" + user + ":" + text with no `:` in the user: the first colon
      after the prefix ends the name, and later colons belong to the text. */
  lemma ParseMsg(frame: string, user: string, text: string)
    ensures Parse(frame) == Msg(user, text)
        <==> frame == MsgPrefix + user + [Sep] + text && Sep !in user
  {
    var cmd := Msg(user, text);
    JoinOfTwo(user, text);
    assert Render(cmd) == MsgPrefix + user + [Sep] + text;
    if Parse(frame) == cmd {
      assert Strings.HasPrefix(frame, MsgPrefix);
      var rest := frame[|MsgPrefix|..];
      var parts := Strings.SplitN(rest, Sep, 2);
      assert parts == [user, text];
      Strings.JoinSplitN(rest, Sep, 2);
      assert frame == MsgPrefix + rest;
    }
    if frame == Render(cmd) && WellFormed(cmd) {
      ParseRender(cmd);
    }
  }

  /** A `join:` frame binds the rest of the frame with its surrounding spaces
      cut away, and is dropped exactly when that rest is empty or all
      spaces. */
  lemma ParseJoin(frame: string)
    requires Strings.HasPrefix(frame, JoinPrefix)
    ensures Parse(frame) == Ignored <==> Strings.AllSpace(frame[|JoinPrefix|..])
    ensures Parse(frame).Join? ==> Parse(frame).name == Strings.TrimSpace(frame[|JoinPrefix|..])
  {
    Strings.TrimSpaceTrims(frame[|JoinPrefix|..]);
  }

  /** A `dm:` frame is dropped exactly when fewer than two colons follow its
      prefix; empty fields are accepted. */
  lemma ParseDmMissingFields(frame: string)
    requires Strings.HasPrefix(frame, DmPrefix)
    ensures Parse(frame) == Ignored <==> Strings.Count(frame[|DmPrefix|..], Sep) < 2
  {
    assert !Strings.HasPrefix(frame, JoinPrefix) by { assert frame[0] != JoinPrefix[0]; }
    Strings.SplitNLength(frame[|DmPrefix|..], Sep, 3);
  }

  /** A `msg:` frame is dropped exactly when no colon follows its prefix;
      empty fields are accepted. */
  lemma ParseMsgMissingFields(frame: string)
    requires Strings.HasPrefix(frame, MsgPrefix)
    ensures Parse(frame) == Ignored <==> Strings.Count(frame[|MsgPrefix|..], Sep) < 1
  {
    assert !Strings.HasPrefix(frame, JoinPrefix) by { assert frame[0] != JoinPrefix[0]; }
    assert !Strings.HasPrefix(frame, DmPrefix) by { assert frame[0] != DmPrefix[0]; }
    Strings.SplitNLength(frame[|MsgPrefix|..], Sep, 2);
  }

  /** Which prefix a frame carries decides the kind of its command; a frame
      with none of the three prefixes is ignored. */
  lemma ParseByPrefix(frame: string)
    ensures Parse(frame).Join? ==> Strings.HasPrefix(frame, JoinPrefix)
    ensures Parse(frame).Dm? ==> Strings.HasPrefix(frame, DmPrefix)
    ensures Parse(frame).Msg? ==> Strings.HasPrefix(frame, MsgPrefix)
    ensures (!Strings.HasPrefix(frame, JoinPrefix) && !Strings.HasPrefix(frame, DmPrefix)
             && !Strings.HasPrefix(frame, MsgPrefix)) ==> Parse(frame) == Ignored
  {
  }

  /** Worked example: the text of a public message keeps its colons. */
  lemma ParseMsgExample()
    ensures Parse("msg:alice:hello:world") == Msg("alice", "hello:world")
  {
    var frame := "msg:alice:hello:world";
    assert frame == MsgPrefix + "alice" + [Sep] + "hello:world";
    assert Sep !in "alice";
    ParseMsg(frame, "alice", "hello:world");
  }

  /** Worked example: the text of a direct message keeps its colons. */
  lemma ParseDmExample()
    ensures Parse("dm:alice:bob:secret:code") == Dm("alice", "bob", "secret:code")
  {
    var frame := "dm:alice:bob:secret:code";
    assert frame == DmPrefix + "alice" + [Sep] + "bob" + [Sep] + "secret:code";
    assert Sep !in "alice" && Sep !in "bob";
    ParseDm(frame, "alice", "bob", "secret:code");
  }

  /** Worked example: a join with only spaces after the prefix is dropped. */
  lemma ParseBlankJoinExample()
    ensures Parse("join:   ") == Ignored
  {
    var frame := "join:   ";
    assert frame[..|JoinPrefix|] == JoinPrefix;
    ParseJoin(frame);
  }

  /** Worked example: the joined name is trimmed. */
  lemma ParsePaddedJoinExample()
    ensures Parse("join:  alice ") == Join("alice")
  {
    var frame := "join:  alice ";
    assert frame[..|JoinPrefix|] == JoinPrefix;
    assert frame[|JoinPrefix|..] == "  " + "alice" + " ";
    Strings.TrimSpacePadded("  ", "alice", " ");
  }
}
