/** The wire protocol of the chat relay: frame formatters, the frame parser
    and the username / content validators (protocol.h).

    Frames are text of the form TYPE:field[:field] terminated by a newline.
    C strings are modelled as character sequences without a NUL character. */
module Protocol {

  // Configuration constants (protocol.h:20-24, 278)
  const MaxUsername := 32      // size of a username buffer, NUL included
  const MaxMessage := 256      // size of a content buffer, NUL included
  const MaxClients := 50
  const BufferSize := 1024
  const TypeSize := 16         // size of message_t.type, NUL included

  /** The characters of a C string, up to and not including its terminating
      NUL. Text the program builds holds no NUL (IsCString); what a client
      sends may, and CStr cuts it at the first one. */
  type CString = string

  predicate IsCString(s: string) {
    '\0' !in s
  }

  datatype Option<T> = None | Some(value: T)

  /** message_t: a parsed frame. Fields the parser does not set stay empty. */
  datatype Message = Message(kind: CString, sender: CString, content: CString)

  /** Every field of the message is a C string. */
  predicate FieldsAreCStrings(m: Message) {
    IsCString(m.kind) && IsCString(m.sender) && IsCString(m.content)
  }

  // ==========================================================================
  // String helpers: what strncpy and snprintf do to a C string
  // ==========================================================================

  /** The first n characters of s: what strncpy leaves in a zeroed buffer of
      n + 1 characters, and what snprintf leaves in a buffer of n + 1. */
  function Take(s: CString, n: nat): (r: CString)
    ensures |r| == if |s| <= n then |s| else n
    ensures r == s[..|r|]
    ensures IsCString(s) ==> IsCString(r)
  {
    if |s| <= n then s else s[..n]
  }

  /** The C string held in a raw buffer: everything before its first NUL. */
  function CStr(raw: string): (s: CString)
    ensures |s| <= |raw| && s == raw[..|s|]
    ensures |s| < |raw| ==> raw[|s|] == '\0'
    ensures IsCString(s)
  {
    if raw == [] || raw[0] == '\0' then [] else [raw[0]] + CStr(raw[1..])
  }

  // ==========================================================================
  // Frame formatters (protocol.h:110-153); snprintf into BUFFER_SIZE bytes
  // ==========================================================================

  // Each frame is written with snprintf into BUFFER_SIZE bytes, so it is cut
  // to BUFFER_SIZE - 1 characters; it always starts with its type tag.

  /** format_auth_message: AUTH:<username>, newline-terminated. */
  function FormatAuth(username: CString): (r: CString)
    ensures |r| < BufferSize && "AUTH:" <= r
    ensures IsCString(username) ==> IsCString(r)
  {
    Take("AUTH:" + username + "\n", BufferSize - 1)
  }

  /** format_chat_message: MSG:<sender>:<content>, newline-terminated. */
  function FormatChat(sender: CString, content: CString): (r: CString)
    ensures |r| < BufferSize && "MSG:" <= r
    ensures IsCString(sender) && IsCString(content) ==> IsCString(r)
  {
    Take("MSG:" + sender + ":" + content + "\n", BufferSize - 1)
  }

  /** format_notification: NOTIFY:<text>, newline-terminated. */
  function FormatNotification(text: CString): (r: CString)
    ensures |r| < BufferSize && "NOTIFY:" <= r
    ensures IsCString(text) ==> IsCString(r)
  {
    Take("NOTIFY:" + text + "\n", BufferSize - 1)
  }

  /** format_error_message: ERROR:<text>, newline-terminated. */
  function FormatError(text: CString): (r: CString)
    ensures |r| < BufferSize && "ERROR:" <= r
    ensures IsCString(text) ==> IsCString(r)
  {
    Take("ERROR:" + text + "\n", BufferSize - 1)
  }

  /** format_disconnect_message: DISCONNECT:<username>, newline-terminated. */
  function FormatDisconnect(username: CString): (r: CString)
    ensures |r| < BufferSize && "DISCONNECT:" <= r
    ensures IsCString(username) ==> IsCString(r)
  {
    Take("DISCONNECT:" + username + "\n", BufferSize - 1)
  }

  // ==========================================================================
  // Tokenizing as strtok does it
  // ==========================================================================

  /** The line parse_message works on: the raw buffer as a C string, cut to
      BUFFER_SIZE - 1 characters, with one trailing newline removed. */
  function Line(raw: string): (r: CString)
    ensures |r| < BufferSize && IsCString(r)
  {
    var buf := Take(CStr(raw), BufferSize - 1);
    if |buf| > 0 && buf[|buf| - 1] == '\n' then buf[..|buf| - 1] else buf
  }

  /** strtok skips the delimiters in front of a token. */
  function SkipColons(s: CString): (r: CString)
    ensures |r| <= |s| && r == s[|s| - |r|..]
    ensures r == [] || r[0] != ':'
    ensures IsCString(s) ==> IsCString(r)
  {
    if s != [] && s[0] == ':' then SkipColons(s[1..]) else s
  }

  /** Index of the first ':' in s, or |s| when there is none. */
  function ColonIndex(s: CString): (i: nat)
    ensures i <= |s|
    ensures forall j :: 0 <= j < i ==> s[j] != ':'
    ensures i < |s| ==> s[i] == ':'
  {
    if s == [] || s[0] == ':' then 0 else 1 + ColonIndex(s[1..])
  }

  lemma ColonFreePrefix(s: CString)
    ensures ':' !in s[..ColonIndex(s)]
  {
    var i := ColonIndex(s);
    forall j | 0 <= j < i ensures s[..i][j] != ':' {
      assert s[..i][j] == s[j];
    }
  }

  /** A token and the text after the delimiter that ended it. */
  datatype Split = Split(token: CString, rest: CString)

  /** strtok(_, ":"): skip leading colons; None when nothing is left;
      otherwise the text up to the next ':' (or the end), and the text after
      that ':' (empty when the token ran to the end). */
  function NextToken(s: CString): (r: Option<Split>)
    ensures r.Some? ==> r.value.token != [] && ':' !in r.value.token
  {
    var t := SkipColons(s);
    if t == [] then None
    else
      var i := ColonIndex(t);
      ColonFreePrefix(t);
      Some(Split(t[..i], if i < |t| then t[i + 1..] else []))
  }

  /** strtok(NULL, ""): the whole remaining text, or None when it is empty. */
  function Remainder(s: CString): Option<CString> {
    if s == [] then None else Some(s)
  }

  predicate IsKnownKind(kind: CString) {
    kind == "AUTH" || kind == "MSG" || kind == "NOTIFY" || kind == "ERROR" || kind == "DISCONNECT"
  }

  /** AUTH and DISCONNECT: the next token is the username. */
  function NameFields(kind: CString, rest: CString): (r: Option<Message>)
    ensures r.Some? ==> r.value.kind == kind && |r.value.sender| < MaxUsername && r.value.content == []
  {
    match NextToken(rest)
    case None => None
    case Some(Split(name, _)) => Some(Message(kind, Take(name, MaxUsername - 1), ""))
  }

  /** MSG: the next token is the sender and all the text after the ':' that
      ends it is the content. */
  function ChatFieldsOf(rest: CString): (r: Option<Message>)
    ensures r.Some? ==> r.value.kind == "MSG" && |r.value.sender| < MaxUsername && |r.value.content| < MaxMessage
  {
    match NextToken(rest)
    case None => None
    case Some(Split(name, tail)) =>
      match Remainder(tail)
      case None => None
      case Some(text) => Some(Message("MSG", Take(name, MaxUsername - 1), Take(text, MaxMessage - 1)))
  }

  /** NOTIFY and ERROR: all the remaining text is the content. */
  function TextFields(kind: CString, rest: CString): (r: Option<Message>)
    ensures r.Some? ==> r.value.kind == kind && r.value.sender == [] && |r.value.content| < MaxMessage
  {
    match Remainder(rest)
    case None => None
    case Some(text) => Some(Message(kind, "", Take(text, MaxMessage - 1)))
  }

  /** The fields parse_message reads after a type token, by type; an
      unrecognised type leaves them empty. */
  function ParseFields(kind: CString, rest: CString): (r: Option<Message>)
    ensures r.Some? ==> r.value.kind == kind
    ensures r.Some? ==> |r.value.sender| < MaxUsername && |r.value.content| < MaxMessage
  {
    if kind == "AUTH" || kind == "DISCONNECT" then NameFields(kind, rest)
    else if kind == "MSG" then ChatFieldsOf(rest)
    else if kind == "NOTIFY" || kind == "ERROR" then TextFields(kind, rest)
    else Some(Message(kind, "", ""))
  }

  /** parse_message (protocol.h:161-219): None stands for the -1 return. */
  function Parse(raw: string): (r: Option<Message>)
    ensures r.Some? ==> 0 < |r.value.kind| < TypeSize
    ensures r.Some? ==> |r.value.sender| < MaxUsername && |r.value.content| < MaxMessage
    ensures r.Some? ==> FieldsAreCStrings(r.value)
  {
    match NextToken(Line(raw))
    case None => None
    case Some(Split(tok, rest)) =>
      NextTokenKeepsCString(Line(raw));
      FieldsKeepCStrings(Take(tok, TypeSize - 1), rest);
      ParseFields(Take(tok, TypeSize - 1), rest)
  }

  /** strtok's tokens and what follows them hold no NUL when the text holds none. */
  lemma NextTokenKeepsCString(s: CString)
    requires IsCString(s) && NextToken(s).Some?
    ensures IsCString(NextToken(s).value.token) && IsCString(NextToken(s).value.rest)
  {
  }

  /** The fields copied out of a NUL-free line hold no NUL. */
  lemma FieldsKeepCStrings(kind: CString, rest: CString)
    requires IsCString(kind) && IsCString(rest)
    ensures ParseFields(kind, rest).Some? ==> FieldsAreCStrings(ParseFields(kind, rest).value)
  {
    var r := ParseFields(kind, rest);
    if r.Some? {
      if kind == "AUTH" || kind == "DISCONNECT" {
        assert r == NameFields(kind, rest);
        NextTokenKeepsCString(rest);
        assert r.value == Message(kind, Take(NextToken(rest).value.token, MaxUsername - 1), "");
      } else if kind == "MSG" {
        assert r == ChatFieldsOf(rest);
        NextTokenKeepsCString(rest);
        var split := NextToken(rest).value;
        assert r.value == Message(kind, Take(split.token, MaxUsername - 1), Take(split.rest, MaxMessage - 1));
      } else if kind == "NOTIFY" || kind == "ERROR" {
        assert r.value == Message(kind, "", Take(rest, MaxMessage - 1));
      } else {
        assert r.value == Message(kind, "", "");
      }
    }
  }

  /** What the field parsing sets, by type. */
  lemma FieldsByKind(kind: CString, rest: CString)
    requires ParseFields(kind, rest).Some?
    ensures var m := ParseFields(kind, rest).value;
      && (!IsKnownKind(m.kind) ==> m.sender == [] && m.content == [])
      && (m.kind == "MSG" ==> m.sender != [] && m.content != [])
      && (m.kind == "AUTH" || m.kind == "DISCONNECT" ==> m.sender != [] && ':' !in m.sender && m.content == [])
      && (m.kind == "NOTIFY" || m.kind == "ERROR" ==> m.sender == [] && m.content != [])
  {
    if kind == "AUTH" || kind == "DISCONNECT" {
      TakeKeepsNoColon(NextToken(rest).value.token, MaxUsername - 1);
    }
  }

  lemma TakeKeepsNoColon(s: CString, n: nat)
    requires ':' !in s
    ensures ':' !in Take(s, n)
  {
    var r := Take(s, n);
    forall i | 0 <= i < |r| ensures r[i] != ':' {
      assert r[i] == s[i] && s[i] in s;
    }
  }

  /** What a successful parse has set, by type. */
  lemma ParsedFields(raw: string)
    requires Parse(raw).Some?
    ensures var m := Parse(raw).value;
      && (!IsKnownKind(m.kind) ==> m.sender == [] && m.content == [])
      && (m.kind == "MSG" ==> m.sender != [] && m.content != [])
      && (m.kind == "AUTH" || m.kind == "DISCONNECT" ==> m.sender != [] && ':' !in m.sender && m.content == [])
      && (m.kind == "NOTIFY" || m.kind == "ERROR" ==> m.sender == [] && m.content != [])
  {
    var split := NextToken(Line(raw)).value;
    FieldsByKind(Take(split.token, TypeSize - 1), split.rest);
  }

  // ==========================================================================
  // Validators (protocol.h:226-262)
  // ==========================================================================

  predicate IsUsernameChar(c: char) {
    ('a' <= c <= 'z') || ('A' <= c <= 'Z') || ('0' <= c <= '9') || c == '_'
  }

  /** The protocol's username rule: [A-Za-z0-9_]{1,31}. */
  predicate IsValidUsername(name: CString) {
    0 < |name| < MaxUsername && forall i :: 0 <= i < |name| ==> IsUsernameChar(name[i])
  }

  /** validate_message_content: 1 to 255 characters, any characters at all. */
  predicate IsValidContent(content: CString) {
    0 < |content| < MaxMessage
  }

  /** validate_username: the length check, then a scan of every character. */
  method ValidateUsername(name: CString) returns (ok: bool)
    ensures ok <==> 0 < |name| < MaxUsername && forall i :: 0 <= i < |name| ==> IsUsernameChar(name[i])
  {
    if |name| == 0 || |name| >= MaxUsername {
      return false;
    }
    var i := 0;
    while i < |name|
      invariant 0 <= i <= |name|
      invariant forall j :: 0 <= j < i ==> IsUsernameChar(name[j])
    {
      var c := name[i];
      if !(('a' <= c <= 'z') || ('A' <= c <= 'Z') || ('0' <= c <= '9') || c == '_') {
        return false;
      }
      i := i + 1;
    }
    return true;
  }

  // ==========================================================================
  // Lemmas about the parser
  // ==========================================================================

  lemma CStrOfCString(s: CString)
    requires IsCString(s)
    ensures CStr(s) == s
  {
    forall k | 0 <= k < |s| ensures s[k] != '\0' {
      assert s[k] in s;
    }
  }

  /** The parser strips exactly one trailing newline: a line that itself ends
      in a newline keeps it. */
  lemma LineStripsOneNewline(x: CString)
    requires IsCString(x) && |x| < BufferSize - 1
    ensures Line(x + "\n") == x
  {
    var raw := x + "\n";
    CStrOfCString(raw);
    assert Take(CStr(raw), BufferSize - 1) == raw;
    assert raw[..|raw| - 1] == x;
  }

  /** A token that is followed by ':' and more text. */
  lemma NextTokenBeforeColon(tok: CString, rest: CString)
    requires tok != [] && ':' !in tok
    ensures NextToken(tok + ":" + rest) == Some(Split(tok, rest))
  {
    var s := tok + ":" + rest;
    assert s[0] == tok[0];
    assert SkipColons(s) == s;
    var i := ColonIndex(s);
    assert forall j :: 0 <= j < |tok| ==> s[j] == tok[j] && tok[j] in tok;
    assert s[|tok|] == ':';
    assert i == |tok|;
    assert s[..i] == tok;
    assert s[i + 1..] == rest;
  }

  /** A token that runs to the end of the text. */
  lemma NextTokenAtEnd(tok: CString)
    requires tok != [] && ':' !in tok
    ensures NextToken(tok) == Some(Split(tok, []))
  {
    assert tok[0] in tok;
    assert SkipColons(tok) == tok;
    var i := ColonIndex(tok);
    assert forall j :: 0 <= j < |tok| ==> tok[j] in tok;
    assert tok[..i] == tok;
  }

  /** strtok finds no token exactly when the text is colons only. */
  lemma {:induction false} NextTokenNone(s: CString)
    ensures NextToken(s).None? <==> forall i :: 0 <= i < |s| ==> s[i] == ':'
  {
    if s != [] && s[0] == ':' {
      NextTokenNone(s[1..]);
      assert SkipColons(s) == SkipColons(s[1..]);
      if forall i :: 0 <= i < |s[1..]| ==> s[1..][i] == ':' {
        forall i | 0 <= i < |s| ensures s[i] == ':' {
          if i > 0 {
            assert s[i] == s[1..][i - 1];
          }
        }
      }
    }
  }

  /** Without a type token (an empty line, or colons only) the parse fails. */
  lemma ParseWithoutTypeFails(raw: string)
    requires forall i :: 0 <= i < |Line(raw)| ==> Line(raw)[i] == ':'
    ensures Parse(raw) == None
  {
    NextTokenNone(Line(raw));
  }

  /** A frame whose type token is followed by ':' is decided by that token
      (cut to 15 characters) and the text after the ':'. */
  lemma {:induction false} ParseFrame(kind: CString, rest: CString)
    requires kind != [] && ':' !in kind && IsCString(kind) && IsCString(rest)
    requires |kind| + |rest| + 1 < BufferSize - 1
    ensures Parse(kind + ":" + rest + "\n") == ParseFields(Take(kind, TypeSize - 1), rest)
  {
    LineStripsOneNewline(kind + ":" + rest);
    NextTokenBeforeColon(kind, rest);
  }

  /** An unrecognised type yields success with only the (truncated) type set. */
  lemma {:induction false} ParseUnknownKind(tok: CString, rest: CString)
    requires tok != [] && ':' !in tok && !IsKnownKind(Take(tok, TypeSize - 1))
    requires IsCString(tok) && IsCString(rest)
    requires |tok| + |rest| + 1 < BufferSize - 1
    ensures Parse(tok + ":" + rest + "\n") == Some(Message(Take(tok, TypeSize - 1), "", ""))
  {
    ParseFrame(tok, rest);
  }

  /** An MSG frame: the next token is the sender and everything after the
      following ':' -- further colons and newlines included -- is the content. */
  lemma {:induction false} ParseChatFrame(sender: CString, content: CString)
    requires sender != [] && ':' !in sender && content != []
    requires IsCString(sender) && IsCString(content)
    requires |sender| + |content| + 5 < BufferSize - 1
    ensures Parse("MSG:" + sender + ":" + content + "\n") ==
            Some(Message("MSG", Take(sender, MaxUsername - 1), Take(content, MaxMessage - 1)))
  {
    assert "MSG:" + sender + ":" + content + "\n" == "MSG" + ":" + (sender + ":" + content) + "\n";
    ParseFrame("MSG", sender + ":" + content);
    assert Take("MSG", TypeSize - 1) == "MSG";
    ChatFields(sender, content);
  }

  /** After an MSG type token: the sender, then everything after the next ':'. */
  lemma ChatFields(sender: CString, content: CString)
    requires sender != [] && ':' !in sender && content != []
    ensures ParseFields("MSG", sender + ":" + content) ==
            Some(Message("MSG", Take(sender, MaxUsername - 1), Take(content, MaxMessage - 1)))
  {
    NextTokenBeforeColon(sender, content);
  }

  /** An MSG frame with at most a sender, and no ':' after it, fails. */
  lemma {:induction false} ParseChatWithoutContent(sender: CString)
    requires ':' !in sender && IsCString(sender) && |sender| + 4 < BufferSize - 1
    ensures Parse("MSG:" + sender + "\n") == None
  {
    assert "MSG:" + sender + "\n" == "MSG" + ":" + sender + "\n";
    ParseFrame("MSG", sender);
    if sender != [] {
      NextTokenAtEnd(sender);
    }
  }

  /** After an MSG type token, a sender followed only by ':' leaves no content. */
  lemma ChatFieldsWithoutContent(sender: CString)
    requires ':' !in sender
    ensures ParseFields("MSG", sender + ":") == None
  {
    if sender == [] {
      assert NextToken(sender + ":") == None;
    } else {
      assert sender + ":" == sender + ":" + [];
      NextTokenBeforeColon(sender, []);
    }
  }

  /** An MSG frame whose sender is followed by ':' and nothing else fails. */
  lemma {:induction false} ParseChatEmptyContent(sender: CString)
    requires ':' !in sender && IsCString(sender) && |sender| + 5 < BufferSize - 1
    ensures Parse("MSG:" + sender + ":" + "\n") == None
  {
    assert "MSG:" + sender + ":" + "\n" == "MSG" + ":" + (sender + ":") + "\n";
    ParseFrame("MSG", sender + ":");
    ChatFieldsWithoutContent(sender);
  }

  lemma ValidUsernameHasNoColon(name: CString)
    requires IsValidUsername(name)
    ensures ':' !in name && IsCString(name)
  {
    forall i | 0 <= i < |name| ensures name[i] != ':' && name[i] != '\0' {
      assert IsUsernameChar(name[i]);
    }
  }

  // ==========================================================================
  // Round trips: parse(format(x)) == x for valid fields
  // ==========================================================================

  lemma {:induction false} ChatRoundTrip(sender: CString, content: CString)
    requires IsValidUsername(sender) && IsValidContent(content) && IsCString(content)
    ensures Parse(FormatChat(sender, content)) == Some(Message("MSG", sender, content))
  {
    ValidUsernameHasNoColon(sender);
    ParseChatFrame(sender, content);
  }

  lemma {:induction false} AuthRoundTrip(username: CString)
    requires IsValidUsername(username)
    ensures Parse(FormatAuth(username)) == Some(Message("AUTH", username, ""))
  {
    ValidUsernameHasNoColon(username);
    assert FormatAuth(username) == "AUTH" + ":" + username + "\n";
    ParseFrame("AUTH", username);
    NextTokenAtEnd(username);
  }

  lemma {:induction false} DisconnectRoundTrip(username: CString)
    requires IsValidUsername(username)
    ensures Parse(FormatDisconnect(username)) == Some(Message("DISCONNECT", username, ""))
  {
    ValidUsernameHasNoColon(username);
    assert FormatDisconnect(username) == "DISCONNECT" + ":" + username + "\n";
    ParseFrame("DISCONNECT", username);
    NextTokenAtEnd(username);
  }

  lemma {:induction false} NotificationRoundTrip(text: CString)
    requires IsValidContent(text) && IsCString(text)
    ensures Parse(FormatNotification(text)) == Some(Message("NOTIFY", "", text))
  {
    assert FormatNotification(text) == "NOTIFY" + ":" + text + "\n";
    ParseFrame("NOTIFY", text);
  }

  lemma {:induction false} ErrorRoundTrip(text: CString)
    requires IsValidContent(text) && IsCString(text)
    ensures Parse(FormatError(text)) == Some(Message("ERROR", "", text))
  {
    assert FormatError(text) == "ERROR" + ":" + text + "\n";
    ParseFrame("ERROR", text);
  }

  /** The server never calls validate_message_content, yet every chat message
      the parser produces satisfies it. */
  lemma ParsedChatContentIsValid(raw: string)
    requires Parse(raw).Some? && Parse(raw).value.kind == "MSG"
    ensures IsValidContent(Parse(raw).value.content)
  {
    ParsedFields(raw);
  }
}
