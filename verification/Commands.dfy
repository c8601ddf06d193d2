/** Replicated commands: the envelope a command travels in, and what applying the log does to a node. */
module Commands {
  import opened Wrappers
  import opened Strings
  import opened Encoding
  import opened Peers

  datatype StoreCommand = StoreCommand(op: string, value: seq<octet>)

  type Member = (string, string)

  // ---------------------------------------------------------------------------------------------
  // The envelope

  function MemberText(m: Member): string {
    JsonString(m.0) + (":" + JsonString(m.1))
  }

  /** Members, and the brace that closes the object. */
  function MembersText(ms: seq<Member>): string
    requires ms != []
  {
    if |ms| == 1 then MemberText(ms[0]) + "}" else MemberText(ms[0]) + ("," + MembersText(ms[1..]))
  }

  function ObjectText(ms: seq<Member>): string {
    if ms == [] then "{}" else "{" + MembersText(ms)
  }

  /** Empty fields are omitted. */
  function CommandMembers(c: StoreCommand): seq<Member> {
    (if c.op == "" then [] else [("op", c.op)]) + (if c.value == [] then [] else [("value", Base64(c.value))])
  }

  function EncodeCommand(c: StoreCommand): seq<octet> {
    Utf8(ObjectText(CommandMembers(c)))
  }

  function ParseMember(t: string): (r: Option<(Member, string)>)
    ensures r.Some? ==> |r.value.1| < |t|
  {
    match ParseJsonString(t)
    case None => None
    case Some((key, rest)) =>
      if rest == "" || rest[0] != ':' || |rest| >= |t| then None
      else
        match ParseJsonString(rest[1..])
        case None => None
        case Some((val, rest')) => if |rest'| < |rest| then Some(((key, val), rest')) else None
  }

  /** Reads members up to the closing brace, which must end the text. */
  function ParseMembers(t: string): Option<seq<Member>>
    decreases |t|
  {
    match ParseMember(t)
    case None => None
    case Some((m, rest)) =>
      if rest == "}" then Some([m])
      else if rest != "" && rest[0] == ',' then
        match ParseMembers(rest[1..])
        case None => None
        case Some(ms) => Some([m] + ms)
      else None
  }

  function ParseObject(t: string): Option<seq<Member>> {
    if t == "{}" then Some([])
    else if t != "" && t[0] == '{' then ParseMembers(t[1..])
    else None
  }

  /** Fills the fields member by member; unknown members are skipped, and a value that is not base64 leaves
      its field alone. */
  function Fields(ms: seq<Member>): StoreCommand {
    if ms == [] then StoreCommand("", [])
    else
      var c := Fields(ms[..|ms| - 1]);
      var (key, val) := ms[|ms| - 1];
      if key == "op" then c.(op := val)
      else if key == "value" && FromBase64(val).Some? then c.(value := FromBase64(val).value)
      else c
  }

  /** What Apply decodes: data that is no object leaves all fields empty. */
  function DecodeCommand(data: seq<octet>): StoreCommand {
    match FromUtf8(data)
    case None => StoreCommand("", [])
    case Some(text) =>
      match ParseObject(text)
      case None => StoreCommand("", [])
      case Some(ms) => Fields(ms)
  }

  lemma ParseMemberText(m: Member, rest: string)
    ensures ParseMember(MemberText(m) + rest) == Some((m, rest))
  {
    var tail := ":" + JsonString(m.1) + rest;
    Associates(JsonString(m.0), ":" + JsonString(m.1), rest);
    JsonStringRoundTrip(m.0, tail);
    assert tail[1..] == JsonString(m.1) + rest;
    JsonStringRoundTrip(m.1, rest);
  }

  lemma {:induction false} ParseMembersText(ms: seq<Member>)
    requires ms != []
    ensures ParseMembers(MembersText(ms)) == Some(ms)
  {
    if |ms| == 1 {
      ParseMemberText(ms[0], "}");
      assert ms == [ms[0]];
    } else {
      ParseMembersText(ms[1..]);
      var more := MembersText(ms[1..]);
      ParseMemberText(ms[0], "," + more);
      assert ("," + more)[1..] == more && "," + more != "}";
      assert [ms[0]] + ms[1..] == ms;
    }
  }

  lemma ParseObjectText(ms: seq<Member>)
    ensures ParseObject(ObjectText(ms)) == Some(ms)
  {
    if ms != [] {
      ParseMembersText(ms);
      var t := "{" + MembersText(ms);
      assert t[1..] == MembersText(ms) && "{}"[1..] == "}";
      assert ParseMembers("}") == None;
    }
  }

  lemma FieldsOfMembers(c: StoreCommand)
    ensures Fields(CommandMembers(c)) == c
  {
    Base64RoundTrip(c.value);
    var ms := CommandMembers(c);
    if c.op != "" && c.value != [] {
      assert ms[..1] == [("op", c.op)] && ms[..1][..0] == [];
    } else if ms != [] {
      assert ms[..0] == [];
    }
  }

  /** The envelope gives back the command that was put into it, whatever its operation and value. */
  lemma EnvelopeRoundTrip(c: StoreCommand)
    ensures DecodeCommand(EncodeCommand(c)) == c
  {
    Utf8RoundTrip(ObjectText(CommandMembers(c)));
    ParseObjectText(CommandMembers(c));
    FieldsOfMembers(c);
  }

  lemma {:induction false} PlainIsNotEscaped(s: string)
    requires forall i :: 0 <= i < |s| ==> 'a' <= s[i] <= 'z'
    ensures EscapeAll(s) == s
  {
    if s != "" {
      PlainIsNotEscaped(s[1..]);
      assert Escape(s[0]) == [s[0]];
    }
  }

  lemma MemberNames()
    ensures JsonString("op") == "\"op\"" && JsonString("value") == "\"value\""
  {
    PlainIsNotEscaped("op");
    PlainIsNotEscaped("value");
    assert "\"" + "op" + "\"" == "\"op\"" && "\"" + "value" + "\"" == "\"value\"";
  }

  lemma OneMember(m: Member)
    ensures ObjectText([m]) == "{" + (MemberText(m) + "}")
  {
  }

  lemma TwoMembers(m: Member, n: Member)
    ensures ObjectText([m, n]) == "{" + (MemberText(m) + ("," + (MemberText(n) + "}")))
  {
    assert [m, n][1..] == [n];
    assert MembersText([n]) == MemberText(n) + "}";
  }

  lemma Pieces(name: string, text: string, other: string, more: string)
    ensures "{" + ((name + (":" + text)) + "}") == "{" + name + ":" + text + "}"
    ensures "{" + ((name + (":" + text)) + ("," + ((other + (":" + more)) + "}")))
            == "{" + name + ":" + text + "," + other + ":" + more + "}"
  {
  }

  /** The text of the envelope: an object with the operation and the value in base64, empty ones left out. */
  lemma EnvelopeText(c: StoreCommand)
    ensures var text := ObjectText(CommandMembers(c));
            && (c.op != "" && c.value != [] ==>
                  text == "{" + "\"op\"" + ":" + JsonString(c.op) + "," + "\"value\"" + ":" + JsonString(Base64(c.value)) + "}")
            && (c.op != "" && c.value == [] ==> text == "{" + "\"op\"" + ":" + JsonString(c.op) + "}")
            && (c.op == "" && c.value != [] ==> text == "{" + "\"value\"" + ":" + JsonString(Base64(c.value)) + "}")
            && (c.op == "" && c.value == [] ==> text == "{}")
  {
    MemberNames();
    OneMember(("op", c.op));
    OneMember(("value", Base64(c.value)));
    TwoMembers(("op", c.op), ("value", Base64(c.value)));
    Pieces("\"op\"", JsonString(c.op), "\"value\"", JsonString(Base64(c.value)));
    Pieces("\"value\"", JsonString(Base64(c.value)), "", "");
  }

  /** A command value as PublishCommand writes it. */
  function MarshalString(s: string): seq<octet> {
    Utf8(JsonString(s))
  }

  /** A command value read as a string; JSON null reads as the empty string. */
  function UnmarshalString(value: seq<octet>): Option<string> {
    match FromUtf8(value)
    case None => None
    case Some(text) =>
      if text == "null" then Some("")
      else
        match ParseJsonString(text)
        case Some((s, rest)) => if rest == "" then Some(s) else None
        case None => None
  }

  lemma MarshalRoundTrip(s: string)
    ensures UnmarshalString(MarshalString(s)) == Some(s)
  {
    Utf8RoundTrip(JsonString(s));
    JsonStringRoundTrip(s, "");
    assert JsonString(s) + "" == JsonString(s);
  }

  /** What raft makes of an entry handed to it: it is applied, or it is not known to be applied (a timeout, lost
      leadership), or its application answers an error. */
  datatype Fate = Applied | Undecided | AnswersError

  datatype PublishError = RaftNotRunning | NotLeader | NotApplied | Refused

  /** Hands a string command to raft, if this node may; `submitted` is the data of the log entry. */
  method PublishCommand(raftEnabled: bool, isLeader: bool, op: string, value: string, fate: Fate)
    returns (submitted: Option<seq<octet>>, error: Option<PublishError>)
    ensures submitted.Some? <==> raftEnabled && isLeader
    ensures submitted.Some? ==> DecodeCommand(submitted.value).op == op
                                && UnmarshalString(DecodeCommand(submitted.value).value) == Some(value)
    ensures error.None? <==> raftEnabled && isLeader && fate.Applied?
    ensures error.Some? ==>
              error.value == if !raftEnabled then RaftNotRunning else if !isLeader then NotLeader
                             else if fate.Undecided? then NotApplied else Refused
  {
    if !raftEnabled {
      return None, Some(RaftNotRunning);
    }
    var b := MarshalString(value);
    if !isLeader {
      return None, Some(NotLeader);
    }
    EnvelopeRoundTrip(StoreCommand(op, b));
    MarshalRoundTrip(value);
    submitted := Some(EncodeCommand(StoreCommand(op, b)));
    match fate {
      case Applied => error := None;
      case Undecided => error := Some(NotApplied);
      case AnswersError => error := Some(Refused);
    }
  }

  // ---------------------------------------------------------------------------------------------
  // Applying

  datatype Effect =
    | Nothing
    | LeaderUriSet(uri: string)
    | HealthReported(token: string)
    | Yielded
    | DecodeFailed
    | UnknownCommand(op: string)

  function ApplyCommand(op: string, value: seq<octet>): Effect {
    match op
    case "heartbeat" => Nothing
    case "leader-uri" =>
      (match UnmarshalString(value)
       case None => DecodeFailed
       case Some(uri) => LeaderUriSet(uri))
    case "request-health-report" =>
      (match UnmarshalString(value)
       case None => DecodeFailed
       case Some(token) => HealthReported(token))
    case _ => UnknownCommand(op)
  }

  /** What a node knows about itself. */
  datatype Node = Node(raftBind: string, hostname: string, resolve: string -> Result<string, string>, defaultPort: string)

  /** The raw bytes of a value taken for text. Such text is a string of bytes, one character each, and so are the
      names a node compares it with. */
  function RawText(value: seq<octet>): string {
    seq(|value|, i requires 0 <= i < |value| => value[i] as char)
  }

  function EffectOf(node: Node, data: seq<octet>): Effect {
    var c := DecodeCommand(data);
    if c.op == "yield" then
      match NormalizeRaftNode(RawText(c.value), node.resolve, node.defaultPort)
      case Err(_) => DecodeFailed
      case Ok(toPeer) => if node.raftBind == toPeer then Nothing else Yielded
    else if c.op == "yield-hint" then
      var hint := RawText(c.value);
      if hint == "" || Contains(node.hostname, hint) then Nothing else Yielded
    else ApplyCommand(c.op, c.value)
  }

  function UriAfter(uri: string, node: Node, data: seq<octet>): string {
    match EffectOf(node, data)
    case LeaderUriSet(u) => u
    case _ => uri
  }

  class Fsm {
    const node: Node
    var leaderUri: string

    constructor (node: Node)
      ensures this.node == node && leaderUri == ""
    {
      this.node, leaderUri := node, "";
    }

    /** Applies one log entry. */
    method Apply(data: seq<octet>) returns (effect: Effect)
      modifies this
      ensures effect == EffectOf(node, data)
      ensures leaderUri == UriAfter(old(leaderUri), node, data)
    {
      var c := DecodeCommand(data);
      if c.op == "yield" {
        var toPeer := NormalizeRaftNode(RawText(c.value), node.resolve, node.defaultPort);
        if toPeer.Err? {
          return DecodeFailed;
        }
        if node.raftBind == toPeer.value {
          return Nothing;
        }
        return Yielded;
      }
      if c.op == "yield-hint" {
        var hint := RawText(c.value);
        if hint == "" {
          return Nothing;
        }
        if Contains(node.hostname, hint) {
          return Nothing;
        }
        return Yielded;
      }
      effect := ApplyCommand(c.op, c.value);
      if effect.LeaderUriSet? {
        leaderUri := effect.uri;
      }
    }

    /** Restoring a snapshot, which holds no data, changes nothing. */
    method Restore(snapshot: seq<octet>)
      ensures leaderUri == old(leaderUri)
    {
    }

    /** Replays a stretch of the log. */
    method Replay(log: seq<seq<octet>>)
      modifies this
      ensures leaderUri == UriAfterAll(old(leaderUri), node, log)
    {
      ghost var start := leaderUri;
      for i := 0 to |log|
        invariant leaderUri == UriAfterAll(start, node, log[..i])
      {
        assert log[..i + 1][..i] == log[..i];
        var _ := Apply(log[i]);
      }
      assert log[..|log|] == log;
    }
  }

  function UriAfterAll(uri: string, node: Node, log: seq<seq<octet>>): string {
    if log == [] then uri else UriAfter(UriAfterAll(uri, node, log[..|log| - 1]), node, log[|log| - 1])
  }

  // ---------------------------------------------------------------------------------------------
  // Agreement

  /** The URI an entry announces: a leader-uri command with a readable value. No property of the node that
      applies it matters. */
  function Announced(data: seq<octet>): Option<string> {
    var c := DecodeCommand(data);
    if c.op == "leader-uri" then UnmarshalString(c.value) else None
  }

  function LastAnnounced(log: seq<seq<octet>>): Option<string> {
    if log == [] then None
    else if Announced(log[|log| - 1]).Some? then Announced(log[|log| - 1])
    else LastAnnounced(log[..|log| - 1])
  }

  lemma UriAfterEntry(uri: string, node: Node, data: seq<octet>)
    ensures UriAfter(uri, node, data) == if Announced(data).Some? then Announced(data).value else uri
  {
  }

  /** After any log, on any node, the leader URI is the last one announced, or the one before the log. */
  lemma {:induction false} UriIsLastAnnounced(uri: string, node: Node, log: seq<seq<octet>>)
    ensures UriAfterAll(uri, node, log) == if LastAnnounced(log).Some? then LastAnnounced(log).value else uri
  {
    if log != [] {
      UriIsLastAnnounced(uri, node, log[..|log| - 1]);
      UriAfterEntry(UriAfterAll(uri, node, log[..|log| - 1]), node, log[|log| - 1]);
    }
  }

  lemma {:induction false} UriAfterConcat(uri: string, node: Node, a: seq<seq<octet>>, b: seq<seq<octet>>)
    ensures UriAfterAll(uri, node, a + b) == UriAfterAll(UriAfterAll(uri, node, a), node, b)
  {
    if b == [] {
      assert a + b == a;
    } else {
      assert (a + b)[..|a + b| - 1] == a + b[..|b| - 1];
      UriAfterConcat(uri, node, a, b[..|b| - 1]);
    }
  }

  /** A node restored from an empty snapshot that replays only a suffix agrees with one that replayed the whole
      log exactly when the suffix announces a leader, or the prefix left nothing behind. */
  lemma RestoredAgrees(node: Node, other: Node, prefix: seq<seq<octet>>, suffix: seq<seq<octet>>)
    ensures UriAfterAll("", other, suffix) == UriAfterAll("", node, prefix + suffix)
            <==> LastAnnounced(suffix).Some? || LastAnnounced(prefix) == None || LastAnnounced(prefix) == Some("")
  {
    UriAfterConcat("", node, prefix, suffix);
    UriIsLastAnnounced("", node, prefix);
    UriIsLastAnnounced(UriAfterAll("", node, prefix), node, suffix);
    UriIsLastAnnounced("", other, suffix);
  }

  /** Starts a node over: it restores a snapshot and replays the entries after it. It agrees with a node that has
      replayed everything exactly when these entries announce a leader, or those before left nothing behind. */
  method Restart(node: Node, snapshot: seq<octet>, suffix: seq<seq<octet>>, ghost other: Node, ghost prefix: seq<seq<octet>>)
    returns (fsm: Fsm)
    ensures fsm.node == node
    ensures fsm.leaderUri == UriAfterAll("", other, prefix + suffix)
            <==> LastAnnounced(suffix).Some? || LastAnnounced(prefix) == None || LastAnnounced(prefix) == Some("")
  {
    fsm := new Fsm(node);
    fsm.Restore(snapshot);
    fsm.Replay(suffix);
    RestoredAgrees(other, node, prefix, suffix);
  }

  /** Publishing a leader URI announces it. */
  lemma PublishedIsAnnounced(uri: string)
    ensures Announced(EncodeCommand(StoreCommand("leader-uri", MarshalString(uri)))) == Some(uri)
  {
    EnvelopeRoundTrip(StoreCommand("leader-uri", MarshalString(uri)));
    MarshalRoundTrip(uri);
  }

  lemma AppliesPublished(node: Node, c: StoreCommand)
    requires c.op != "yield" && c.op != "yield-hint"
    ensures EffectOf(node, EncodeCommand(c)) == ApplyCommand(c.op, c.value)
  {
    EnvelopeRoundTrip(c);
  }

  lemma AppliesValue(op: string, bytes: seq<octet>, value: string)
    requires UnmarshalString(bytes) == Some(value)
    ensures ApplyCommand("request-health-report", bytes) == HealthReported(value)
    ensures ApplyCommand("leader-uri", bytes) == LeaderUriSet(value)
    ensures ApplyCommand("heartbeat", bytes) == Nothing
    ensures op !in ["request-health-report", "leader-uri", "heartbeat"] ==> ApplyCommand(op, bytes) == UnknownCommand(op)
  {
  }

  /** A published request makes every node report with the token in it, a published URI becomes the leader's, a
      heartbeat has no effect, and any other operation but the two that yield is refused. */
  lemma PublishedHasItsEffect(node: Node, op: string, value: string)
    requires op != "yield" && op != "yield-hint"
    ensures var effect := EffectOf(node, EncodeCommand(StoreCommand(op, MarshalString(value))));
            && (op == "request-health-report" ==> effect == HealthReported(value))
            && (op == "leader-uri" ==> effect == LeaderUriSet(value))
            && (op == "heartbeat" ==> effect == Nothing)
            && (op !in ["request-health-report", "leader-uri", "heartbeat"] ==> effect == UnknownCommand(op))
  {
    AppliesPublished(node, StoreCommand(op, MarshalString(value)));
    MarshalRoundTrip(value);
    AppliesValue(op, MarshalString(value), value);
  }

  lemma NullText()
    ensures UnmarshalString(Utf8("null")) == Some("")
  {
    Utf8RoundTrip("null");
  }

  /** A leader URI published as JSON null is announced as the empty string. */
  lemma NullIsEmpty()
    ensures Announced(EncodeCommand(StoreCommand("leader-uri", Utf8("null")))) == Some("")
  {
    EnvelopeRoundTrip(StoreCommand("leader-uri", Utf8("null")));
    NullText();
  }

  /** No value is read if something other than white space follows the string. */
  lemma TrailingIsRefused(s: string, rest: string)
    requires rest != "" && rest[0] !in " \t\r\n"
    ensures UnmarshalString(Utf8(JsonString(s) + rest)) == None
  {
    var text := JsonString(s) + rest;
    Utf8RoundTrip(text);
    JsonStringRoundTrip(s, rest);
    assert text[0] == '"';
  }

  /** An entry that is no command is refused. */
  lemma MalformedIsRefused(node: Node, data: seq<octet>)
    requires FromUtf8(data).None? || ParseObject(FromUtf8(data).value).None?
    ensures EffectOf(node, data) == UnknownCommand("")
  {
  }

  // ---------------------------------------------------------------------------------------------
  // Yielding

  /** A hint put into the log as it is makes exactly those hosts yield whose name it is no part of, and an empty one
      none. */
  lemma RawHintYields(node: Node, hint: seq<octet>)
    ensures EffectOf(node, EncodeCommand(StoreCommand("yield-hint", hint)))
            == if hint == [] || exists a: string, b: string :: node.hostname == a + RawText(hint) + b then Nothing else Yielded
  {
    EnvelopeRoundTrip(StoreCommand("yield-hint", hint));
    ContainsMeans(node.hostname, RawText(hint));
    assert RawText(hint) == "" <==> hint == [];
  }

  /** A peer put into the log as it is makes exactly those nodes yield that it does not name. */
  lemma RawPeerYields(node: Node, value: seq<octet>, host: string, port: string)
    requires RawText(value) == host + ":" + port && ':' !in host && ':' !in port && node.resolve(host).Ok?
    ensures EffectOf(node, EncodeCommand(StoreCommand("yield", value)))
            == if node.raftBind == node.resolve(host).value + ":" + port then Nothing else Yielded
  {
    EnvelopeRoundTrip(StoreCommand("yield", value));
    NormalizeByParts(host, port, node.resolve, node.defaultPort);
  }

  lemma RawNext(b: octet, rest: seq<octet>)
    ensures RawText([b] + rest) == [b as char] + RawText(rest)
  {
  }

  /** In ASCII the raw bytes are the characters. */
  lemma {:induction false} RawAscii(s: string)
    requires forall c :: c in s ==> c as int < 0x80
    ensures RawText(Utf8(s)) == s
  {
    if s != "" {
      assert s[0] in s && forall c :: c in s[1..] ==> c in s;
      RawAscii(s[1..]);
      RawNext(s[0] as int, Utf8(s[1..]));
    }
  }

  /** So an ASCII hint makes exactly those hosts yield whose name does not contain it. */
  lemma AsciiHintYields(node: Node, hint: string)
    requires forall c :: c in hint ==> c as int < 0x80
    ensures EffectOf(node, EncodeCommand(StoreCommand("yield-hint", Utf8(hint))))
            == if hint == "" || exists a: string, b: string :: node.hostname == a + hint + b then Nothing else Yielded
  {
    RawHintYields(node, Utf8(hint));
    RawAscii(hint);
  }

  /** And an ASCII peer exactly those nodes it does not name. */
  lemma AsciiPeerYields(node: Node, host: string, port: string)
    requires (forall c :: c in host + ":" + port ==> c as int < 0x80) && ':' !in host && ':' !in port && node.resolve(host).Ok?
    ensures EffectOf(node, EncodeCommand(StoreCommand("yield", Utf8(host + ":" + port))))
            == if node.raftBind == node.resolve(host).value + ":" + port then Nothing else Yielded
  {
    RawAscii(host + ":" + port);
    RawPeerYields(node, Utf8(host + ":" + port), host, port);
  }

  lemma {:induction false} Utf8Last(s: string)
    requires s != "" && s[|s| - 1] as int < 0x80
    ensures Utf8(s) != [] && Utf8(s)[|Utf8(s)| - 1] == s[|s| - 1] as int
  {
    if |s| > 1 {
      Utf8Last(s[1..]);
    }
  }

  /** A string published as the value of a command starts and ends with a quote when it is taken for text. */
  lemma PublishedIsQuoted(s: string)
    ensures var text := RawText(MarshalString(s)); text != "" && text[0] == '"' && text[|text| - 1] == '"'
  {
    var json := JsonString(s);
    assert json[0] == '"' && json[|json| - 1] == '"';
    Utf8Last(json);
    assert Utf8(json)[0] == EncodeChar(json[0])[0];
  }

  /** Yield commands take the raw JSON text for the peer. A hint published as a string therefore starts with a
      quote, and no host without one in its name recognizes itself. */
  lemma PublishedHintAlwaysYields(node: Node, hint: string)
    requires '"' !in node.hostname
    ensures EffectOf(node, EncodeCommand(StoreCommand("yield-hint", MarshalString(hint)))) == Yielded
  {
    EnvelopeRoundTrip(StoreCommand("yield-hint", MarshalString(hint)));
    PublishedIsQuoted(hint);
    ContainedStarts(node.hostname, RawText(MarshalString(hint)));
  }

  /** So a published hint has the effect it is meant to have exactly on the hosts that it does not match. */
  lemma HintMeetsItsPurpose(node: Node, hint: string)
    requires '"' !in node.hostname
    ensures EffectOf(node, EncodeCommand(StoreCommand("yield-hint", MarshalString(hint))))
            == (if hint == "" || Contains(node.hostname, hint) then Nothing else Yielded)
            <==> hint != "" && !Contains(node.hostname, hint)
  {
    PublishedHintAlwaysYields(node, hint);
  }

  /** The address lookup leaves a host alone that it cannot find, and it finds none with a quote in its name. */
  ghost predicate LeavesQuotedAlone(resolve: string -> Result<string, string>) {
    forall host :: '"' in host ==> resolve(host) == Ok(host)
  }

  /** Likewise for a peer, with or without a port: its host starts with a quote, the lookup keeps it, and so no node
      bound to an address without quotes takes the peer for itself. */
  lemma PublishedPeerAlwaysYields(node: Node, peer: string)
    requires '"' !in node.raftBind && LeavesQuotedAlone(node.resolve)
    ensures EffectOf(node, EncodeCommand(StoreCommand("yield", MarshalString(peer)))) == Yielded
  {
    EnvelopeRoundTrip(StoreCommand("yield", MarshalString(peer)));
    PublishedIsQuoted(peer);
    QuotedStaysQuoted(RawText(MarshalString(peer)), node.resolve, node.defaultPort);
  }

  /** So a published peer has the effect it is meant to have exactly on the nodes it does not name. */
  lemma PeerMeetsItsPurpose(node: Node, peer: string)
    requires '"' !in node.raftBind && LeavesQuotedAlone(node.resolve)
    ensures var toPeer := NormalizeRaftNode(peer, node.resolve, node.defaultPort);
            EffectOf(node, EncodeCommand(StoreCommand("yield", MarshalString(peer))))
            == (if toPeer.Err? then DecodeFailed else if toPeer.value == node.raftBind then Nothing else Yielded)
            <==> toPeer.Ok? && toPeer.value != node.raftBind
  {
    PublishedPeerAlwaysYields(node, peer);
  }

  lemma QuotedStaysQuoted(text: string, resolve: string -> Result<string, string>, defaultPort: string)
    requires text != "" && text[0] == '"' && LeavesQuotedAlone(resolve)
    ensures var toPeer := NormalizeRaftNode(text, resolve, defaultPort);
            toPeer.Ok? && '"' in toPeer.value
  {
    FirstPartStarts(text, ':');
    var host := Split(text, ':')[0];
    assert host[0] in host;
    var toPeer := NormalizeRaftNode(text, resolve, defaultPort).value;
    assert toPeer[0] == host[0];
  }

  /** For a peer published as host and port not even the lookup matters, since the port keeps the closing quote. */
  lemma PublishedHostPortAlwaysYields(node: Node, peer: string)
    requires '"' !in node.raftBind && |Split(RawText(MarshalString(peer)), ':')| == 2
    requires NormalizeRaftNode(RawText(MarshalString(peer)), node.resolve, node.defaultPort).Ok?
    ensures EffectOf(node, EncodeCommand(StoreCommand("yield", MarshalString(peer)))) == Yielded
  {
    EnvelopeRoundTrip(StoreCommand("yield", MarshalString(peer)));
    PublishedIsQuoted(peer);
    QuotedPortStaysQuoted(RawText(MarshalString(peer)), node.resolve, node.defaultPort);
  }

  lemma QuotedPortStaysQuoted(text: string, resolve: string -> Result<string, string>, defaultPort: string)
    requires text != "" && text[|text| - 1] == '"' && |Split(text, ':')| == 2
    requires NormalizeRaftNode(text, resolve, defaultPort).Ok?
    ensures '"' in NormalizeRaftNode(text, resolve, defaultPort).value
  {
    LastPartEnds(text, ':');
    var toPeer := NormalizeRaftNode(text, resolve, defaultPort).value;
    assert toPeer[|toPeer| - 1] == '"';
  }

  lemma FirstPartStarts(s: string, sep: char)
    requires s != "" && s[0] != sep
    ensures Split(s, sep)[0] != "" && Split(s, sep)[0][0] == s[0]
  {
  }

  lemma {:induction false} LastPartEnds(s: string, sep: char)
    requires s != "" && s[|s| - 1] != sep
    ensures var last := Split(s, sep)[|Split(s, sep)| - 1]; last != "" && last[|last| - 1] == s[|s| - 1]
  {
    if |s| > 1 {
      LastPartEnds(s[1..], sep);
    } else {
      assert Split(s[1..], sep) == [""];
    }
  }
}
