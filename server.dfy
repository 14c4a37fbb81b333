/** The per-connection handler and the broadcast thread of the chat server
    (p1gxS.c:137-364), as sequential steps over the shared registry and
    message queue. What a connection delivers is a sequence of received
    chunks, one per read() that returned data; what the server writes is a
    list of (socket, frame) sends. */
module ChatServer {
  import opened Protocol
  import opened Queue
  import opened Clients

  // Replies sent on the handler's own socket (protocol.h:40-45, p1gxS.c:243-291)
  const InvalidAuthReply: CString := FormatError("Invalid authentication format")
  const AuthOkReply: CString := "AUTH_OK\n"
  const AuthTakenReply: CString := "AUTH_FAILED:Username already taken\n"
  const AuthInvalidReply: CString := "AUTH_FAILED:Invalid username\n"
  const ServerFullReply: CString := "ERROR:Server is full\n"

  /** The join and leave texts, formatted with snprintf into BUFFER_SIZE bytes. */
  function JoinText(name: CString): CString {
    Take(name + " joined the chat", BufferSize - 1)
  }

  function LeaveText(name: CString): CString {
    Take(name + " left the chat", BufferSize - 1)
  }

  /** The frame the broadcast thread writes for a queued message. */
  function ChatFrame(m: Message): CString {
    FormatChat(m.sender, m.content)
  }

  // ==========================================================================
  // Authentication: the ordered checks on the first frame (p1gxS.c:237-299)
  // ==========================================================================

  datatype AuthOutcome = Rejected(reply: CString) | Accepted(name: CString)

  /** The outcome of the first frame against the registered entries: a bad
      frame, then a bad name, then a taken name, then a full registry. */
  function AuthDecision(entries: seq<ClientInfo>, frame: string): AuthOutcome {
    AuthCheck(entries, Parse(frame))
  }

  /** The same checks on the result of parse_message. */
  function AuthCheck(entries: seq<ClientInfo>, parsed: Option<Message>): AuthOutcome {
    match parsed
    case None => Rejected(InvalidAuthReply)
    case Some(m) =>
      if m.kind != "AUTH" then Rejected(InvalidAuthReply)
      else if !IsValidUsername(m.sender) then Rejected(AuthInvalidReply)
      else if NameTaken(entries, m.sender) then Rejected(AuthTakenReply)
      else if |entries| >= MaxClients then Rejected(ServerFullReply)
      else Accepted(m.sender)
  }

  /** A first frame is accepted exactly when it parsed as AUTH with a valid
      name that no entry has, while the registry has room; the name accepted
      is the one the frame carried. */
  lemma AcceptedExactly(entries: seq<ClientInfo>, parsed: Option<Message>)
    ensures AuthCheck(entries, parsed).Accepted? <==>
              && parsed.Some? && parsed.value.kind == "AUTH"
              && IsValidUsername(parsed.value.sender)
              && !NameTaken(entries, parsed.value.sender) && |entries| < MaxClients
    ensures AuthCheck(entries, parsed).Accepted? ==> AuthCheck(entries, parsed).name == parsed.value.sender
  {
  }

  /** An accepted name is valid, free, and fits: registering it keeps the
      usernames unique, and on a socket no entry has, the sockets too. */
  lemma AcceptedKeepsNamesUnique(entries: seq<ClientInfo>, parsed: Option<Message>, fd: int)
    requires UniqueNames(entries)
    requires AuthCheck(entries, parsed).Accepted?
    ensures var name := AuthCheck(entries, parsed).name;
      && IsValidUsername(name) && |entries| < MaxClients
      && UniqueNames(entries + [ClientInfo(fd, name, true)])
    ensures UniqueFds(entries) && !HasFd(entries, fd) ==>
              UniqueFds(entries + [ClientInfo(fd, AuthCheck(entries, parsed).name, true)])
  {
    var name := AuthCheck(entries, parsed).name;
    var all := entries + [ClientInfo(fd, name, true)];
    forall i | 0 <= i < |entries| ensures all[i] == entries[i] { }
  }

  /** Once a name is registered, another AUTH for the same name is refused
      as taken: of several attempts with one name, at most one succeeds. */
  lemma SameNameRejected(entries: seq<ClientInfo>, parsed: Option<Message>, fd: int)
    requires AuthCheck(entries, parsed).Accepted?
    ensures AuthCheck(entries + [ClientInfo(fd, AuthCheck(entries, parsed).name, true)], parsed)
            == Rejected(AuthTakenReply)
  {
    var name := AuthCheck(entries, parsed).name;
    var all := entries + [ClientInfo(fd, name, true)];
    assert all[|entries|].username == name;
  }

  /** With MAX_CLIENTS registered, no first frame is accepted, and a
      well-formed request for a free name gets the server-full reply. */
  lemma FullRegistryRejects(entries: seq<ClientInfo>, parsed: Option<Message>)
    requires |entries| >= MaxClients
    ensures AuthCheck(entries, parsed).Rejected?
    ensures parsed.Some? && parsed.value.kind == "AUTH"
            && IsValidUsername(parsed.value.sender) && !NameTaken(entries, parsed.value.sender)
            ==> AuthCheck(entries, parsed) == Rejected(ServerFullReply)
  {
  }

  /** A client's AUTH frame for a valid, free name is accepted while there is room. */
  lemma {:induction false} FormattedAuthAccepted(entries: seq<ClientInfo>, name: CString)
    requires IsValidUsername(name) && !NameTaken(entries, name) && |entries| < MaxClients
    ensures AuthDecision(entries, FormatAuth(name)) == Accepted(name)
  {
    AuthRoundTrip(name);
  }

  /** A name of allowed characters that is too long: its first 31
      characters form a valid username, and it has no ':'. */
  lemma OverlongNameCut(name: CString)
    requires MaxUsername <= |name|
    requires forall i :: 0 <= i < |name| ==> IsUsernameChar(name[i])
    ensures !IsValidUsername(name) && ':' !in name
    ensures IsValidUsername(Take(name, MaxUsername - 1))
  {
    forall i | 0 <= i < |name| ensures name[i] != ':' {
      assert IsUsernameChar(name[i]);
    }
    var short := Take(name, MaxUsername - 1);
    forall i | 0 <= i < |short| ensures IsUsernameChar(short[i]) {
      assert short[i] == name[i];
    }
  }

  /** The parser cuts the name to 31 characters before it is validated, so an
      over-long name made of allowed characters is accepted in its cut form
      instead of being refused. */
  lemma {:induction false} OverlongNameAcceptedTruncated(entries: seq<ClientInfo>, name: CString)
    requires MaxUsername <= |name| && |name| + 5 < BufferSize - 1
    requires forall i :: 0 <= i < |name| ==> IsUsernameChar(name[i])
    requires !NameTaken(entries, Take(name, MaxUsername - 1)) && |entries| < MaxClients
    ensures !IsValidUsername(name)
    ensures AuthDecision(entries, "AUTH:" + name + "\n") == Accepted(Take(name, MaxUsername - 1))
  {
    OverlongNameCut(name);
    assert "AUTH:" + name + "\n" == "AUTH" + ":" + name + "\n";
    ParseFrame("AUTH", name);
    NextTokenAtEnd(name);
  }

  /** handle_client's authentication phase on the parsed first frame. A
      rejection sends its reply and leaves the registry untouched; an
      acceptance adds exactly one entry, sends AUTH_OK, then the join notice
      to everyone registered, the new client included. */
  method Authenticate(reg: ClientRegistry, fd: int, parsed: Option<Message>) returns (sends: seq<Send>, user: Option<CString>)
    requires reg.Valid()
    modifies reg, reg.clients
    ensures reg.Valid()
    ensures match AuthCheck(old(reg.Entries()), parsed)
      case Rejected(reply) =>
        sends == [Send(fd, reply)] && user == None && unchanged(reg) && unchanged(reg.clients)
      case Accepted(name) =>
        && user == Some(name)
        && reg.Entries() == old(reg.Entries()) + [ClientInfo(fd, name, true)]
        && sends == [Send(fd, AuthOkReply)] + FanOut(reg.Entries(), FormatNotification(JoinText(name)))
  {
    if parsed.None? || parsed.value.kind != "AUTH" {
      return [Send(fd, InvalidAuthReply)], None;
    }
    var name := parsed.value.sender;
    var valid := ValidateUsername(name);
    if !valid {
      return [Send(fd, AuthInvalidReply)], None;
    }
    var taken := reg.UsernameExists(name);
    if taken {
      return [Send(fd, AuthTakenReply)], None;
    }
    var username := Take(name, MaxUsername - 1);
    assert username == name;
    var status := reg.AddClient(fd, username);
    if status != 0 {
      return [Send(fd, ServerFullReply)], None;
    }
    var joined := reg.BroadcastNotification(JoinText(username));
    sends := [Send(fd, AuthOkReply)] + joined;
    user := Some(username);
  }

  // ==========================================================================
  // The receiving loop (p1gxS.c:305-347)
  // ==========================================================================

  datatype FrameAction = Chat(msg: Message) | Leave | Ignore

  /** What the loop does with a received chunk: an MSG frame becomes a chat
      message carrying the authenticated name as sender, DISCONNECT ends the
      loop, and anything else (other types, parse failures) is ignored. */
  function Classify(username: CString, frame: string): FrameAction {
    ClassifyParsed(username, Parse(frame))
  }

  function ClassifyParsed(username: CString, parsed: Option<Message>): FrameAction {
    match parsed
    case None => Ignore
    case Some(m) =>
      if m.kind == "MSG" then Chat(m.(sender := Take(username, MaxUsername - 1)))
      else if m.kind == "DISCONNECT" then Leave
      else Ignore
  }

  /** The sender a client writes into its MSG frame is discarded: what gets
      queued names the authenticated user, and the frame broadcast for it
      reads back, at every receiver, as that user's message. */
  lemma {:induction false} ChatSenderReplaced(username: CString, claimed: CString, content: CString)
    requires IsValidUsername(username) && IsValidUsername(claimed)
    requires IsValidContent(content) && IsCString(content)
    ensures Classify(username, FormatChat(claimed, content)) == Chat(Message("MSG", username, content))
    ensures Parse(ChatFrame(Message("MSG", username, content))) == Some(Message("MSG", username, content))
  {
    ChatRoundTrip(claimed, content);
    ChatRoundTrip(username, content);
  }

  /** Every chat message the loop queues has the MSG type, the authenticated
      name and content that passes validate_message_content. */
  lemma ChatMessagesValid(username: CString, frame: string)
    requires IsValidUsername(username) && Classify(username, frame).Chat?
    ensures var m := Classify(username, frame).msg;
      m.kind == "MSG" && m.sender == username && IsValidContent(m.content)
  {
    ParsedChatContentIsValid(frame);
  }

  /** The relay is faithful: the frame the broadcaster writes for any chat
      message the loop queues parses back, at every receiver, to exactly
      that message. */
  lemma {:induction false} QueuedChatRelaysIntact(username: CString, frame: string)
    requires IsValidUsername(username) && Classify(username, frame).Chat?
    ensures var m := Classify(username, frame).msg;
      Parse(ChatFrame(m)) == Some(m)
  {
    var m := Classify(username, frame).msg;
    ChatMessagesValid(username, frame);
    assert IsCString(m.content);
    ChatRoundTrip(username, m.content);
  }

  /** Enqueue or drop: the queue's contents after offering one message. */
  function Offer(queued: seq<Message>, m: Message): seq<Message> {
    if |queued| < QueueSize then queued + [m] else queued
  }

  /** Offering several messages in turn. */
  function OfferAll(queued: seq<Message>, ms: seq<Message>): seq<Message> {
    if ms == [] then queued else Offer(OfferAll(queued, ms[..|ms| - 1]), ms[|ms| - 1])
  }

  /** Without a consumer in between, offered messages are kept until the queue
      is full and every later one is dropped; nothing is lost while there is room. */
  lemma {:induction false} OfferAllKeepsPrefix(queued: seq<Message>, ms: seq<Message>)
    requires |queued| <= QueueSize
    ensures var kept := if |queued| + |ms| <= QueueSize then |ms| else QueueSize - |queued|;
      OfferAll(queued, ms) == queued + ms[..kept]
  {
    if ms != [] {
      var init := ms[..|ms| - 1];
      OfferAllKeepsPrefix(queued, init);
      var kept := if |queued| + |init| <= QueueSize then |init| else QueueSize - |queued|;
      assert init[..kept] == ms[..kept];
      if |queued| + |ms| <= QueueSize {
        assert ms[..|ms|] == init + [ms[|ms| - 1]];
      }
    }
  }

  /** parse_message applied to each received chunk. */
  function ParseAll(frames: seq<string>): seq<Option<Message>> {
    seq(|frames|, i requires 0 <= i < |frames| => Parse(frames[i]))
  }

  /** The chat messages among the parsed chunks, in order. */
  function Chats(username: CString, parsed: seq<Option<Message>>): seq<Message> {
    if parsed == [] then []
    else
      var action := ClassifyParsed(username, parsed[|parsed| - 1]);
      Chats(username, parsed[..|parsed| - 1]) + (if action.Chat? then [action.msg] else [])
  }

  /** How many chunks the loop reads before the one that ends it (all of
      them when none does). */
  function StopIndex(username: CString, parsed: seq<Option<Message>>): (k: nat)
    ensures k <= |parsed|
  {
    if parsed == [] || ClassifyParsed(username, parsed[0]).Leave? then 0
    else 1 + StopIndex(username, parsed[1..])
  }

  /** While the loop has not stopped before chunk i, it stops at chunk i
      exactly when that chunk is a DISCONNECT. */
  lemma {:induction false} StopIndexStep(username: CString, parsed: seq<Option<Message>>, i: nat)
    requires i < |parsed| && StopIndex(username, parsed) >= i
    ensures ClassifyParsed(username, parsed[i]).Leave? <==> StopIndex(username, parsed) == i
  {
    if i > 0 {
      assert parsed[1..][i - 1] == parsed[i];
      StopIndexStep(username, parsed[1..], i - 1);
    }
  }

  /** One pass of the receiving loop: parse the chunk and act on it. A chat
      message is enqueued, or dropped when the queue is full. */
  method ReceiveFrame(q: MessageQueue, username: CString, frame: string) returns (stop: bool)
    requires q.Valid()
    modifies q, q.messages
    ensures q.Valid()
    ensures var action := Classify(username, frame);
      && (stop <==> action.Leave?)
      && q.Contents() == (if action.Chat? then Offer(old(q.Contents()), action.msg) else old(q.Contents()))
      && (!action.Chat? ==> unchanged(q) && unchanged(q.messages))
  {
    var parsed := Parse(frame);
    assert Classify(username, frame) == ClassifyParsed(username, parsed);
    if parsed.Some? {
      var msg := parsed.value;
      if msg.kind == "MSG" {
        msg := msg.(sender := Take(username, MaxUsername - 1));
        var status := q.Enqueue(msg);
      } else if msg.kind == "DISCONNECT" {
        return true;
      }
    }
    return false;
  }

  /** The cleanup of handle_client: the leave notice goes to every registered
      client, the departing one included, and only then is it unregistered. */
  method Cleanup(reg: ClientRegistry, fd: int, username: CString) returns (sends: seq<Send>)
    requires reg.Valid()
    modifies reg, reg.clients
    ensures reg.Valid()
    ensures sends == FanOut(old(reg.Entries()), FormatNotification(LeaveText(username)))
    ensures reg.Entries() == RemoveFirst(old(reg.Entries()), fd)
  {
    sends := reg.BroadcastNotification(LeaveText(username));
    reg.RemoveClient(fd);
  }

  /** Acting on one more parsed chunk offers its chat message, if any. */
  lemma OfferChatsStep(queued: seq<Message>, name: CString, parsed: seq<Option<Message>>, i: nat)
    requires i < |parsed|
    ensures var action := ClassifyParsed(name, parsed[i]);
      var before := OfferAll(queued, Chats(name, parsed[..i]));
      OfferAll(queued, Chats(name, parsed[..i + 1])) == if action.Chat? then Offer(before, action.msg) else before
  {
    assert parsed[..i + 1][..i] == parsed[..i];
    var action := ClassifyParsed(name, parsed[i]);
    var ms := Chats(name, parsed[..i]);
    if action.Chat? {
      assert (ms + [action.msg])[..|ms|] == ms;
    } else {
      assert ms + [] == ms;
    }
  }

  /** Chunks as read() delivers them: each holds at least one byte. */
  predicate ReadResults(chunks: seq<string>) {
    forall i :: 0 <= i < |chunks| ==> chunks[i] != []
  }

  lemma ReadResultsTail(chunks: seq<string>)
    requires chunks != [] && ReadResults(chunks)
    ensures ReadResults(chunks[1..])
  {
    forall i | 0 <= i < |chunks| - 1 ensures chunks[1..][i] != [] {
      assert chunks[1..][i] == chunks[i + 1];
    }
  }

  /** The receiving loop of handle_client: chunks are read and acted on
      until one is a DISCONNECT or there are no more; the chat messages
      among them are offered to the queue in order. Each chunk is what one
      read() returned, so it is never empty: a read() of 0 bytes (or an
      error) is the end of the sequence, where the loop also ends. */
  method ReceiveLoop(q: MessageQueue, name: CString, chunks: seq<string>)
    requires q.Valid()
    requires ReadResults(chunks)
    modifies q, q.messages
    ensures q.Valid()
    ensures var parsed := ParseAll(chunks);
      q.Contents() == OfferAll(old(q.Contents()), Chats(name, parsed[..StopIndex(name, parsed)]))
  {
    ghost var q0 := q.Contents();
    ghost var parsed := ParseAll(chunks);
    var i := 0;
    while i < |chunks|
      invariant 0 <= i <= |chunks|
      invariant q.Valid() && q.Contents() == OfferAll(q0, Chats(name, parsed[..i]))
      invariant StopIndex(name, parsed) >= i
    {
      StopIndexStep(name, parsed, i);
      ghost var action := ClassifyParsed(name, parsed[i]);
      ghost var before := q.Contents();
      assert Classify(name, chunks[i]) == action;
      var stop := ReceiveFrame(q, name, chunks[i]);
      if stop {
        break;
      }
      OfferChatsStep(q0, name, parsed, i);
      assert q.Contents() == (if action.Chat? then Offer(before, action.msg) else before);
      i := i + 1;
    }
  }

  /** handle_client for one connection, run as one sequential step with no
      other handler and no broadcaster in between. The chunks are the
      non-empty results of read(). No chunk at all (the first read() fails)
      ends it silently; otherwise the first chunk is the
      authentication frame, and after an acceptance the chunks are processed
      until a DISCONNECT or the end of the input, then the client leaves. */
  method HandleClient(reg: ClientRegistry, q: MessageQueue, fd: int, frames: seq<string>) returns (sends: seq<Send>)
    requires reg.Valid() && q.Valid()
    requires ReadResults(frames)
    modifies reg, reg.clients, q, q.messages
    ensures reg.Valid() && q.Valid()
    ensures frames == [] ==>
              sends == [] && unchanged(reg) && unchanged(reg.clients) && unchanged(q) && unchanged(q.messages)
    ensures frames != [] && AuthDecision(old(reg.Entries()), frames[0]).Rejected? ==>
              && sends == [Send(fd, AuthDecision(old(reg.Entries()), frames[0]).reply)]
              && unchanged(reg) && unchanged(reg.clients) && unchanged(q) && unchanged(q.messages)
    ensures frames != [] && AuthDecision(old(reg.Entries()), frames[0]).Accepted? ==>
              var name := AuthDecision(old(reg.Entries()), frames[0]).name;
              var joined := old(reg.Entries()) + [ClientInfo(fd, name, true)];
              var parsed := ParseAll(frames[1..]);
              var received := parsed[..StopIndex(name, parsed)];
              && q.Contents() == OfferAll(old(q.Contents()), Chats(name, received))
              && reg.Entries() == RemoveFirst(joined, fd)
              && sends == [Send(fd, AuthOkReply)]
                          + FanOut(joined, FormatNotification(JoinText(name)))
                          + FanOut(joined, FormatNotification(LeaveText(name)))
  {
    if frames == [] {
      return [];
    }
    var parsed := Parse(frames[0]);
    var authSends, user := Authenticate(reg, fd, parsed);
    if user.None? {
      return authSends;
    }
    var name := user.value;
    var rest := frames[1..];
    ReadResultsTail(frames);
    ReceiveLoop(q, name, rest);
    var leaveSends := Cleanup(reg, fd, name);
    sends := authSends + leaveSends;
  }

  /** A connection whose socket was not registered leaves the registry as it
      found it, and its own leave notice reaches it. */
  lemma {:induction false} ConnectionLeavesRegistryAsFound(entries: seq<ClientInfo>, fd: int, name: CString)
    requires !HasFd(entries, fd)
    ensures RemoveFirst(entries + [ClientInfo(fd, name, true)], fd) == entries
    ensures Send(fd, FormatNotification(LeaveText(name)))
            in FanOut(entries + [ClientInfo(fd, name, true)], FormatNotification(LeaveText(name)))
  {
    var joined := entries + [ClientInfo(fd, name, true)];
    RemoveFirstAfterAppend(entries, ClientInfo(fd, name, true));
    assert joined[|entries|].socketFd == fd;
    FanOutReaches(joined, FormatNotification(LeaveText(name)), fd);
  }

  // ==========================================================================
  // The broadcast thread (p1gxS.c:158-203)
  // ==========================================================================

  /** One pass of the broadcast loop once the queue is not empty: dequeue the
      oldest message, format it and write it to every registered client in
      index order. An empty queue yields no sends and no change. */
  method BroadcastStep(q: MessageQueue, reg: ClientRegistry) returns (sends: seq<Send>)
    requires q.Valid() && reg.Valid()
    modifies q
    ensures q.Valid()
    ensures old(q.Contents()) == [] ==> sends == [] && unchanged(q)
    ensures old(q.Contents()) != [] ==>
              && q.Contents() == old(q.Contents())[1..]
              && sends == FanOut(reg.Entries(), ChatFrame(old(q.Contents())[0]))
  {
    var status, msg := q.Dequeue();
    if status == 0 {
      sends := reg.SendToAll(FormatChat(msg.sender, msg.content));
    } else {
      sends := [];
    }
  }

  /** Everything the broadcaster writes for a run of queued messages. */
  function Deliveries(entries: seq<ClientInfo>, ms: seq<Message>): seq<Send> {
    if ms == [] then []
    else Deliveries(entries, ms[..|ms| - 1]) + FanOut(entries, ChatFrame(ms[|ms| - 1]))
  }

  lemma DeliveriesSnoc(entries: seq<ClientInfo>, ms: seq<Message>, m: Message)
    ensures Deliveries(entries, ms + [m]) == Deliveries(entries, ms) + FanOut(entries, ChatFrame(m))
  {
    assert (ms + [m])[..|ms|] == ms;
  }

  /** The broadcast loop run until the queue is empty. */
  method Drain(q: MessageQueue, reg: ClientRegistry) returns (sends: seq<Send>)
    requires q.Valid() && reg.Valid()
    modifies q
    ensures q.Valid() && q.Contents() == []
    ensures sends == Deliveries(reg.Entries(), old(q.Contents()))
  {
    sends := [];
    ghost var entries := reg.Entries();
    ghost var initial := q.Contents();
    ghost var done: seq<Message> := [];
    while !q.IsEmpty()
      invariant q.Valid() && reg.Entries() == entries
      invariant done + q.Contents() == initial
      invariant sends == Deliveries(entries, done)
      decreases |q.Contents()|
    {
      ghost var next := q.Contents()[0];
      ghost var rest := q.Contents()[1..];
      assert done + [next] + rest == initial by {
        assert q.Contents() == [next] + rest;
      }
      var step := BroadcastStep(q, reg);
      assert sends + step == Deliveries(entries, done + [next]) by {
        DeliveriesSnoc(entries, done, next);
      }
      sends := sends + step;
      done := done + [next];
    }
    assert done == initial by {
      assert done + [] == done;
    }
  }

  /** The frames one socket receives. */
  function ReceivedBy(sends: seq<Send>, fd: int): seq<CString> {
    if sends == [] then []
    else
      var last := sends[|sends| - 1];
      ReceivedBy(sends[..|sends| - 1], fd) + (if last.fd == fd then [last.frame] else [])
  }

  function ChatFrames(ms: seq<Message>): seq<CString> {
    if ms == [] then [] else ChatFrames(ms[..|ms| - 1]) + [ChatFrame(ms[|ms| - 1])]
  }

  lemma {:induction false} ReceivedByConcat(a: seq<Send>, b: seq<Send>, fd: int)
    ensures ReceivedBy(a + b, fd) == ReceivedBy(a, fd) + ReceivedBy(b, fd)
  {
    if b != [] {
      var b' := b[..|b| - 1];
      ReceivedByConcat(a, b', fd);
      assert (a + b)[..|a + b| - 1] == a + b';
      assert (a + b)[|a + b| - 1] == b[|b| - 1];
    } else {
      assert a + b == a;
    }
  }

  /** A socket registered once receives the fanned-out frame exactly once; an
      unregistered socket receives nothing. */
  lemma {:induction false} ReceivedByFanOut(entries: seq<ClientInfo>, frame: CString, fd: int)
    requires UniqueFds(entries)
    ensures ReceivedBy(FanOut(entries, frame), fd) == if HasFd(entries, fd) then [frame] else []
  {
    if entries != [] {
      var init := entries[..|entries| - 1];
      var last := entries[|entries| - 1];
      assert UniqueFds(init) by {
        forall i, j | 0 <= i < j < |init| ensures init[i].socketFd != init[j].socketFd {
          assert init[i] == entries[i] && init[j] == entries[j];
        }
      }
      ReceivedByFanOut(init, frame, fd);
      var fanned := FanOut(init, frame) + [Send(last.socketFd, frame)];
      assert fanned[..|fanned| - 1] == FanOut(init, frame);
      if last.socketFd == fd {
        assert !HasFd(init, fd) by {
          forall i | 0 <= i < |init| ensures init[i].socketFd != fd {
            assert init[i] == entries[i];
          }
        }
      } else {
        if HasFd(entries, fd) {
          var k :| 0 <= k < |entries| && entries[k].socketFd == fd;
          assert init[k].socketFd == fd;
        }
        if HasFd(init, fd) {
          var k :| 0 <= k < |init| && init[k].socketFd == fd;
          assert entries[k].socketFd == fd;
        }
      }
    }
  }

  /** FIFO delivery: every registered client receives the queued messages'
      frames exactly once each, in the order they were enqueued. */
  lemma {:induction false} DeliveriesInOrder(entries: seq<ClientInfo>, ms: seq<Message>, fd: int)
    requires UniqueFds(entries) && HasFd(entries, fd)
    ensures ReceivedBy(Deliveries(entries, ms), fd) == ChatFrames(ms)
  {
    if ms != [] {
      var init := ms[..|ms| - 1];
      DeliveriesInOrder(entries, init, fd);
      ReceivedByConcat(Deliveries(entries, init), FanOut(entries, ChatFrame(ms[|ms| - 1])), fd);
      ReceivedByFanOut(entries, ChatFrame(ms[|ms| - 1]), fd);
    }
  }
}
