# Live chat room server — a Dafny model

This project models the core of a small TCP chat relay written in C. Clients authenticate with a username and then send chat messages. The server relays every message to every connected client through one bounded queue and one broadcaster.

Two source files hold the modelled logic:

- `protocol.h` defines the text wire protocol (`TYPE:field[:field]` frames ending in a newline). It contains:
  - the `format_*` frame builders;
  - the `strtok`-based `parse_message`;
  - the username and content validators;
  - a 100-slot circular message queue.
- `p1gxS.c` is the server. Its modelled parts are:
  - the client registry, a fixed array of 50 entries with a count;
  - the connection handler's ordered authentication checks, its receiving loop and its cleanup;
  - the broadcast thread's dequeue-format-send step.

The Dafny modules follow that split:

| file | module | what it holds |
|---|---|---|
| `protocol.dfy` | `Protocol` | Formatters, parser and validators as pure functions, and round-trip lemmas. `validate_username` is a method with its loop. |
| `queue.dfy` | `Queue` | The class `MessageQueue`: an array of 100 messages with `head`, `tail` and `count`, whose abstract value (`Contents`) is the queued messages, oldest first. |
| `clients.dfy` | `Clients` | The class `ClientRegistry`: an array of 50 `ClientInfo` entries with `clientCount`, whose abstract value (`Entries`) is the live entries in join order. It also holds the reference functions `RemoveFirst` and `FanOut`. |
| `server.dfy` | `ChatServer` | The authentication decision, the receiving loop, cleanup and the broadcast step, as methods over one registry and one queue. |

Modelling choices:

- C strings are character sequences. A received buffer is cut at its first NUL and at `BUFFER_SIZE - 1` characters, as `strncpy` into the parser's buffer does.
- `strncpy` into a fixed field and `snprintf` into `BUFFER_SIZE` bytes are written out as explicit truncation (`Take`), so nothing assumes that the text fits.
- Each `read()` that returns data is one received chunk. A connection is the sequence of its chunks, and its end is the end of the sequence.
- Writes to sockets are a list of `Send(fd, frame)` records, in the order they happen.

## Behaviour worth knowing

- `validate_username` refuses names of 32 characters or more (protocol.h:231-232). It never sees one during authentication, though: `parse_message` has already cut the sender to 31 characters (protocol.h:186), and the handler validates that cut name (p1gxS.c:251). An `AUTH` frame with a long name of allowed characters is therefore accepted under its first 31 characters (`ChatServer.OverlongNameAcceptedTruncated`).
- `DISCONNECT_ACK` is defined (protocol.h:45, 96-98) but never sent. A `DISCONNECT` frame only ends the receiving loop (p1gxS.c:337-341).
- The leave notice is broadcast before `remove_client` (p1gxS.c:354-358), so the departing client receives it too (`ChatServer.ConnectionLeavesRegistryAsFound`).
- The join notice is sent by the handler itself (p1gxS.c:297-299), not through the message queue.
- No content check runs before enqueueing (p1gxS.c:319-330). The parser already cuts content to 255 characters (protocol.h:197), so every queued message satisfies `validate_message_content` (`Protocol.ParsedChatContentIsValid`); over-long content is truncated rather than refused.

## Model

| member | source | states |
|---|---|---|
| Protocol.Take | protocol.h:186 | The result is the first n characters of the text (all of it when shorter), so a C string stays a C string |
| Protocol.CStr | protocol.h:167-168 | The C string in a raw buffer is the longest NUL-free prefix: it is followed by a NUL or ends the buffer |
| Protocol.FormatAuth | protocol.h:110-112 | `AUTH:<username>\n`, cut to 1023 characters: it starts with `AUTH:`, fits `BUFFER_SIZE`, and has no NUL when the name has none |
| Protocol.FormatChat | protocol.h:121-123 | `MSG:<sender>:<content>\n`, cut to 1023 characters: it starts with `MSG:`, fits `BUFFER_SIZE`, and has no NUL when its arguments have none |
| Protocol.FormatNotification | protocol.h:131-133 | `NOTIFY:<text>\n`, cut to 1023 characters: it starts with `NOTIFY:`, fits `BUFFER_SIZE`, and has no NUL when the text has none |
| Protocol.FormatError | protocol.h:141-143 | `ERROR:<text>\n`, cut to 1023 characters: it starts with `ERROR:`, fits `BUFFER_SIZE`, and has no NUL when the text has none |
| Protocol.FormatDisconnect | protocol.h:151-153 | `DISCONNECT:<username>\n`, cut to 1023 characters: it starts with `DISCONNECT:`, fits `BUFFER_SIZE`, and has no NUL when the name has none |
| Protocol.Line | protocol.h:166-174 | The text the parser splits is a NUL-free prefix of the received buffer of at most 1023 characters, with one trailing newline removed |
| Protocol.Remainder | protocol.h:195-196 | `strtok(NULL, "")`: the whole remaining text, or failure when nothing remains |
| Protocol.NextToken | protocol.h:177-178 | A token that `strtok(_, ":")` finds is non-empty and contains no `:` |
| Protocol.NextTokenNone | protocol.h:177-178 | `strtok` finds no token exactly when the text is empty or all colons |
| Protocol.NextTokenBeforeColon | protocol.h:184-186 | A colon-free token followed by `:` is returned, and the scan resumes right after that `:` |
| Protocol.NextTokenAtEnd | protocol.h:184-186 | A colon-free token running to the end of the text is returned whole, with nothing left |
| Protocol.NameFields | protocol.h:211-215 | An `AUTH`/`DISCONNECT` parse sets the type, a sender of at most 31 characters and no content |
| Protocol.ChatFieldsOf | protocol.h:188-197 | An `MSG` parse sets type `MSG`, a sender of at most 31 characters and content of at most 255 |
| Protocol.TextFields | protocol.h:199-209 | A `NOTIFY`/`ERROR` parse sets the type, no sender and content of at most 255 characters |
| Protocol.ParseFields | protocol.h:181-216 | The per-type field extraction keeps the type and respects both field bounds |
| Protocol.Parse | protocol.h:161-219 | A successful parse has a type of 1..15 characters, a sender under 32 and content under 256, each a NUL-free C string |
| Protocol.NextTokenKeepsCString | protocol.h:177-178 | A token `strtok` cuts from NUL-free text, and the text after it, hold no NUL |
| Protocol.FieldsKeepCStrings | protocol.h:179-215 | Every field `strncpy` copies out of a NUL-free line holds no NUL |
| Protocol.FieldsByKind | protocol.h:181-216 | By type: unknown types set only the type; `MSG` sets a non-empty sender and content; `AUTH`/`DISCONNECT` set only a non-empty, colon-free sender; `NOTIFY`/`ERROR` set only non-empty content |
| Protocol.ParsedFields | protocol.h:161-219 | The same by-type facts for any successful `parse_message` |
| Protocol.IsValidContent | protocol.h:253-262 | `validate_message_content`: 1..255 characters, with no restriction on which characters |
| Protocol.ValidateUsername | protocol.h:226-246 | Returns true iff the length is 1..31 and every character is an ASCII letter, digit or `_` |
| Protocol.LineStripsOneNewline | protocol.h:166-174 | Exactly one trailing newline is removed from a line that fits the buffer |
| Protocol.ParseWithoutTypeFails | protocol.h:177-178 | A line that is empty or all colons makes the parse fail |
| Protocol.ParseFrame | protocol.h:161-181 | A frame `kind:rest\n` is decided by the type cut to 15 characters and the text after the first `:` |
| Protocol.ParseUnknownKind | protocol.h:176-218 | An unrecognised type succeeds with only the (truncated) type set |
| Protocol.ParseChatFrame | protocol.h:188-197 | An `MSG` frame yields the next token as sender and all the remaining text, colons included, as content, each truncated |
| Protocol.ChatFields | protocol.h:188-197 | After the `MSG` type, the sender ends at the next `:` and the content is everything after it |
| Protocol.ParseChatWithoutContent | protocol.h:188-197 | An `MSG` frame with no `:` after the sender (or no sender) fails |
| Protocol.ChatFieldsWithoutContent | protocol.h:194-196 | After the `MSG` type, a sender followed only by `:` leaves no content, so the parse fails |
| Protocol.ParseChatEmptyContent | protocol.h:194-196 | An `MSG:sender:` frame with empty content fails |
| Protocol.ValidUsernameHasNoColon | protocol.h:235-243 | A valid username contains no `:` and no NUL |
| Protocol.ChatRoundTrip | protocol.h:121-123 | Parsing a formatted chat frame with a valid sender and valid content gives back `MSG`, that sender and that content |
| Protocol.AuthRoundTrip | protocol.h:110-112 | Parsing a formatted `AUTH` frame for a valid username gives back `AUTH` and that username |
| Protocol.DisconnectRoundTrip | protocol.h:151-153 | Parsing a formatted `DISCONNECT` frame for a valid username gives back `DISCONNECT` and that username |
| Protocol.NotificationRoundTrip | protocol.h:131-133 | Parsing a formatted `NOTIFY` frame with valid text gives back `NOTIFY` and that text |
| Protocol.ErrorRoundTrip | protocol.h:141-143 | Parsing a formatted `ERROR` frame with valid text gives back `ERROR` and that text |
| Protocol.ParsedChatContentIsValid | protocol.h:253-262 | The content of every parsed `MSG` frame satisfies `validate_message_content` (1..255 characters) |
| Queue.WindowPush | protocol.h:324-326 | Writing at the slot after the live window appends that message to the window |
| Queue.WindowPop | protocol.h:340-342 | Advancing the read position drops the oldest message from the window |
| Queue.MessageQueue.constructor | p1gxS.c:35 | A new queue satisfies the invariant and holds no messages |
| Queue.MessageQueue.Init | protocol.h:291-295 | Resetting the indices establishes `0 <= count <= 100` and `head == (tail + count) % 100`, with an empty queue |
| Queue.MessageQueue.IsEmpty | protocol.h:302-304 | True iff no message is queued |
| Queue.MessageQueue.IsFull | protocol.h:311-313 | True iff 100 messages are queued |
| Queue.MessageQueue.Enqueue | protocol.h:321-329 | When full: -1 and nothing changes. Otherwise: 0, the message written at `head`, `head` advanced mod 100, `count` + 1, other slots untouched, and the message appended to the contents |
| Queue.MessageQueue.Dequeue | protocol.h:337-345 | When empty: -1 and nothing changes. Otherwise: 0, the message at `tail` (the oldest), `tail` advanced mod 100, `count` - 1 |
| Queue.FillAndDrain | protocol.h:321-345 | Up to 100 messages are accepted and come back out in FIFO order; one more is refused when the queue is full |
| Queue.DequeueAll | protocol.h:337-345 | Dequeueing until empty yields the queued messages, oldest first |
| Clients.RemoveFirstAt | p1gxS.c:100-110 | Removal cuts out the first entry with the socket and keeps the others in order |
| Clients.RemoveFirstAbsent | p1gxS.c:100-111 | With no entry for the socket, removal changes nothing |
| Clients.RemoveFirstLength | p1gxS.c:100-110 | Removal shortens the registry by one iff an entry has the socket |
| Clients.RemoveFirstIdempotent | p1gxS.c:97-114 | With distinct sockets, removing twice equals removing once |
| Clients.RemoveFirstKeepsOnly | p1gxS.c:100-110 | Every entry left after a removal was registered before it |
| Clients.RemoveFirstKeepsNamesUnique | p1gxS.c:97-114 | Removing a client keeps the registered usernames distinct |
| Clients.RemoveFirstKeepsFdsUnique | p1gxS.c:97-114 | Removing a client keeps the registered sockets distinct |
| Clients.RemoveFirstAfterAppend | p1gxS.c:73-114 | Adding a client with a fresh socket and then removing that socket restores the registry |
| Clients.FanOutAt | p1gxS.c:142-144 | A fan-out has one send per entry; the i-th send goes to the i-th entry, with the same frame |
| Clients.FanOutReaches | p1gxS.c:142-144 | Every registered socket receives the fanned-out frame |
| Clients.ClientRegistry.constructor | p1gxS.c:30-31 | A new registry satisfies the invariant and is empty |
| Clients.ClientRegistry.AddClient | p1gxS.c:73-91 | With 50 clients: -1 and nothing changes. Otherwise: 0, and `{fd, name cut to 31, authenticated}` is appended, with earlier entries unchanged; `0 <= client_count <= 50` is kept |
| Clients.ClientRegistry.RemoveClient | p1gxS.c:97-114 | The live entries become the old ones minus the first entry with that socket, order kept; no match means no change; `0 <= client_count <= 50` is kept |
| Clients.ClientRegistry.ShiftDown | p1gxS.c:105-107 | The inner shift loop overwrites entry i with the later entries, each moved down one slot |
| Clients.ClientRegistry.UsernameExists | p1gxS.c:120-132 | Returns true iff a live entry has exactly that username (case-sensitive) |
| Clients.ClientRegistry.SendToAll | p1gxS.c:189-195 | Writes the frame to every live entry in index order |
| Clients.ClientRegistry.BroadcastNotification | p1gxS.c:137-148 | Writes the `NOTIFY` frame for the text to every live entry in index order |
| ChatServer.JoinText | p1gxS.c:297-298 | The join text `<name> joined the chat`, cut to 1023 characters |
| ChatServer.LeaveText | p1gxS.c:354-355 | The leave text `<name> left the chat`, cut to 1023 characters |
| ChatServer.ChatFrame | p1gxS.c:182-184 | The frame the broadcast thread formats for a dequeued message: `format_chat_message` of its sender and content |
| ChatServer.AuthDecision | p1gxS.c:237-285 | The authentication outcome of a first frame: `parse_message`, then the ordered checks |
| ChatServer.AuthCheck | p1gxS.c:238-285 | The ordered checks on the parsed frame: bad frame or type, invalid name, taken name, full registry, else accepted |
| ChatServer.AcceptedExactly | p1gxS.c:238-285 | A first frame is accepted iff it parsed as `AUTH` with a valid name that no entry has while there is room; the accepted name is the one it carried |
| ChatServer.AcceptedKeepsNamesUnique | p1gxS.c:250-285 | An accepted name is valid and the registry has room; registering it keeps the usernames unique, and on a socket no entry has, the sockets too |
| ChatServer.SameNameRejected | p1gxS.c:261-270 | Once a name is registered, the same `AUTH` is refused as taken: at most one of several same-name attempts succeeds |
| ChatServer.FullRegistryRejects | p1gxS.c:276-285 | With 50 registered, every first frame is refused; a good request for a free name gets the server-full reply |
| ChatServer.FormattedAuthAccepted | p1gxS.c:237-291 | A client's `AUTH` frame for a valid, free name is accepted while there is room |
| ChatServer.OverlongNameCut | protocol.h:226-246 | A name of allowed characters that is 32 or more long is invalid, but its first 31 characters form a valid name |
| ChatServer.OverlongNameAcceptedTruncated | p1gxS.c:237-277 | An `AUTH` frame for an over-long name of allowed characters is accepted under the name cut to 31 characters |
| ChatServer.Authenticate | p1gxS.c:237-299 | Checks run in order (bad frame or type, invalid name, taken name, full). A rejection sends only its reply and leaves the registry unchanged; an acceptance adds exactly one entry and sends `AUTH_OK`, then the join notice to every registered client |
| ChatServer.ClassifyParsed | p1gxS.c:319-346 | What the loop does with a parse result: `MSG` becomes a chat message under the authenticated name, `DISCONNECT` ends the loop, anything else is ignored |
| ChatServer.Classify | p1gxS.c:315-346 | The same decision on a received chunk, after `parse_message` |
| ChatServer.ChatSenderReplaced | p1gxS.c:319-331 | The sender a client writes is replaced by the authenticated name, and the broadcast frame parses back as that user's message |
| ChatServer.ChatMessagesValid | p1gxS.c:319-331 | Every message the loop queues has type `MSG`, the authenticated name and valid content |
| ChatServer.QueuedChatRelaysIntact | p1gxS.c:179-184 | For any received chunk the loop queues as a chat, the frame the broadcaster writes for it parses back to exactly that message |
| ChatServer.OfferAllKeepsPrefix | p1gxS.c:328-335 | Without a consumer, offered messages are kept until the queue is full and all later ones are dropped |
| ChatServer.StopIndexStep | p1gxS.c:337-342 | Before the loop has stopped, it stops at a chunk exactly when that chunk is a `DISCONNECT` |
| ChatServer.ReceiveFrame | p1gxS.c:315-346 | `MSG` is enqueued under the authenticated name, or dropped with the queue unchanged when full; `DISCONNECT` stops the loop; anything else leaves the queue untouched |
| ChatServer.ReadResults | p1gxS.c:307-313 | The chunks a connection delivers: every `read()` that returned data, so none is empty |
| ChatServer.OfferChatsStep | p1gxS.c:319-346 | Acting on one more chunk offers its chat message, if it has one |
| ChatServer.ReceiveLoop | p1gxS.c:305-347 | The queue ends up holding the chat messages of every chunk before the first `DISCONNECT`, offered in order |
| ChatServer.Cleanup | p1gxS.c:353-358 | The leave notice goes to every registered client, the departing one included, and the client is unregistered afterwards |
| ChatServer.HandleClient | p1gxS.c:213-364 | No chunk: nothing happens. A rejected first frame: its reply only, no state change. An accepted one: `AUTH_OK`, join notice, the chats queued up to `DISCONNECT`, the leave notice, then the entry removed |
| ChatServer.ConnectionLeavesRegistryAsFound | p1gxS.c:353-358 | A connection on a fresh socket leaves the registry as it found it, and its own leave notice reaches it |
| ChatServer.BroadcastStep | p1gxS.c:163-199 | The oldest message is dequeued, and its `MSG` frame is written to every registered client in index order; an empty queue gives no sends |
| ChatServer.DeliveriesSnoc | p1gxS.c:179-194 | One more dequeued message adds one fan-out of its frame to what has been delivered |
| ChatServer.Drain | p1gxS.c:163-199 | Running the broadcast loop until empty delivers every queued message's fan-out, oldest first, and empties the queue |
| ChatServer.ReceivedByConcat | p1gxS.c:189-194 | What a socket receives from two runs of sends is what it receives from the first, then the second |
| ChatServer.ReceivedByFanOut | p1gxS.c:189-194 | With distinct sockets, a registered socket receives a fanned-out frame exactly once; an unregistered one receives nothing |
| ChatServer.DeliveriesInOrder | p1gxS.c:163-199 | FIFO delivery: every registered client receives each queued message's frame exactly once, in enqueue order |

## Left out

- Sockets (`read`, `send`, `accept`, `bind`, `listen`, `close`), `main`'s accept loop and shutdown sequence, and all `printf`/`perror` logging. These are I/O: received data is an input sequence and writes are a returned list of sends.
- Threads, the two mutexes and the condition variable, the `server_running` flag and the SIGINT handler. Each registry or queue method (`AddClient`, `RemoveClient`, `UsernameExists`, `SendToAll`, `Enqueue`, `Dequeue`) is one locked region run as one step. The broadcast thread's blocking wait and its exit on shutdown are not modelled; `Drain` repeats its loop body while the queue is not empty.
- ChatServer.Authenticate: runs `username_exists`, `add_client` and the join `broadcast_notification` (p1gxS.c:262, 277, 299) as one step. In the server these are three locked calls, and other handlers may act in between: two clients can both pass the name check with the same name, or the registry can change before the join notice goes out.
- ChatServer.HandleClient: runs a whole connection with no other handler and no broadcaster in between. Its contract therefore holds only for that schedule. The join and leave notices go to the same set of clients, and chats past the queue's 100th are dropped only because nothing drains the queue meanwhile.
- ChatServer.ReceiveLoop: runs the whole receiving loop as one step with no broadcaster in between, for the same reason.
- Distinct sockets: the model takes it from the operating system that registered clients have distinct socket descriptors (`accept` never returns a descriptor that is still open). `RemoveFirstIdempotent`, `ReceivedByFanOut` and `DeliveriesInOrder` assume `UniqueFds`. Acceptance on a fresh socket and removal are proved to keep it (`AcceptedKeepsNamesUnique`, `RemoveFirstKeepsFdsUnique`).
- `DISCONNECT_ACK` (protocol.h:45, 96-98): documented but never sent by the server.
- The `int` results of the `format_*` functions (the `snprintf` length) are not modelled; only the buffer contents are.
- Bytes are modelled as `char`. No encoding is involved, since the protocol only compares and copies them.
- A frame split over several `read()` calls, or several frames arriving in one read, are not modelled: each chunk is parsed as one frame, as the server does. A `read()` of 0 bytes or an error is the end of the chunk sequence (`ReadResults`).
- Send failures are not modelled: every send is recorded as written.
- Protocol.ChatRoundTrip: requires the content to hold no NUL, because such content cannot be passed to `format_chat_message` as a C string.
- Protocol.NotificationRoundTrip: requires the text to hold no NUL, for the same reason.
- Protocol.ErrorRoundTrip: requires the text to hold no NUL, for the same reason.
- ChatServer.ChatSenderReplaced: requires the content to hold no NUL, for the same reason.
- The interactive client (p1g2C.c) and the demo programs (server.c, client.c) are not part of this model.
