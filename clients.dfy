/** The server's client registry (p1gxS.c:29-148): a fixed array of
    MAX_CLIENTS entries of which the first client_count are the connected,
    authenticated clients, in the order they joined. The mutex that guards it
    is left out: each method is one locked step. */
module Clients {
  import opened Protocol

  /** client_info_t */
  datatype ClientInfo = ClientInfo(socketFd: int, username: CString, authenticated: bool)

  /** One call of send(): a frame written to a socket. */
  datatype Send = Send(fd: int, frame: CString)

  predicate NameTaken(entries: seq<ClientInfo>, name: CString) {
    exists i :: 0 <= i < |entries| && entries[i].username == name
  }

  predicate HasFd(entries: seq<ClientInfo>, fd: int) {
    exists i :: 0 <= i < |entries| && entries[i].socketFd == fd
  }

  /** No two registered clients share a username. */
  predicate UniqueNames(entries: seq<ClientInfo>) {
    forall i, j :: 0 <= i < j < |entries| ==> entries[i].username != entries[j].username
  }

  /** No two registered clients share a socket. */
  predicate UniqueFds(entries: seq<ClientInfo>) {
    forall i, j :: 0 <= i < j < |entries| ==> entries[i].socketFd != entries[j].socketFd
  }

  // ==========================================================================
  // remove_client on the live entries: drop the first entry with that socket
  // ==========================================================================

  function RemoveFirst(entries: seq<ClientInfo>, fd: int): seq<ClientInfo> {
    if entries == [] then []
    else if entries[0].socketFd == fd then entries[1..]
    else [entries[0]] + RemoveFirst(entries[1..], fd)
  }

  /** The first entry with the socket is cut out; the others keep their order. */
  lemma {:induction false} RemoveFirstAt(entries: seq<ClientInfo>, fd: int, k: nat)
    requires k < |entries| && entries[k].socketFd == fd
    requires forall j :: 0 <= j < k ==> entries[j].socketFd != fd
    ensures RemoveFirst(entries, fd) == entries[..k] + entries[k + 1..]
  {
    if k > 0 {
      RemoveFirstAt(entries[1..], fd, k - 1);
      assert entries[1..][..k - 1] == entries[1..k];
      assert entries[1..][k..] == entries[k + 1..];
      assert [entries[0]] + entries[1..k] == entries[..k];
    }
  }

  /** Without an entry for the socket, removal changes nothing. */
  lemma {:induction false} RemoveFirstAbsent(entries: seq<ClientInfo>, fd: int)
    requires !HasFd(entries, fd)
    ensures RemoveFirst(entries, fd) == entries
  {
    if entries != [] {
      assert entries[0].socketFd != fd;
      assert !HasFd(entries[1..], fd) by {
        forall j | 0 <= j < |entries[1..]| ensures entries[1..][j].socketFd != fd {
          assert entries[1..][j] == entries[j + 1];
        }
      }
      RemoveFirstAbsent(entries[1..], fd);
    }
  }

  /** Removal deletes exactly one entry when there is one with the socket. */
  lemma {:induction false} RemoveFirstLength(entries: seq<ClientInfo>, fd: int)
    ensures |RemoveFirst(entries, fd)| == if HasFd(entries, fd) then |entries| - 1 else |entries|
  {
    if entries != [] {
      RemoveFirstLength(entries[1..], fd);
      if HasFd(entries[1..], fd) {
        var k :| 0 <= k < |entries[1..]| && entries[1..][k].socketFd == fd;
        assert entries[k + 1].socketFd == fd;
      }
      if entries[0].socketFd != fd && HasFd(entries, fd) {
        var k :| 0 <= k < |entries| && entries[k].socketFd == fd;
        assert entries[1..][k - 1].socketFd == fd;
      }
    }
  }

  /** With at most one entry per socket, removing twice is removing once:
      the unregister step is idempotent. */
  lemma {:induction false} RemoveFirstIdempotent(entries: seq<ClientInfo>, fd: int)
    requires UniqueFds(entries)
    ensures RemoveFirst(RemoveFirst(entries, fd), fd) == RemoveFirst(entries, fd)
  {
    if entries != [] {
      if entries[0].socketFd == fd {
        assert !HasFd(entries[1..], fd) by {
          forall j | 0 <= j < |entries[1..]| ensures entries[1..][j].socketFd != fd {
            assert entries[1..][j] == entries[j + 1];
          }
        }
        RemoveFirstAbsent(entries[1..], fd);
      } else {
        assert UniqueFds(entries[1..]) by {
          forall i, j | 0 <= i < j < |entries[1..]|
            ensures entries[1..][i].socketFd != entries[1..][j].socketFd
          {
            assert entries[1..][i] == entries[i + 1] && entries[1..][j] == entries[j + 1];
          }
        }
        RemoveFirstIdempotent(entries[1..], fd);
      }
    }
  }

  /** Removal only drops entries: whatever remains was registered before. */
  lemma {:induction false} RemoveFirstKeepsOnly(entries: seq<ClientInfo>, fd: int)
    ensures forall e :: e in RemoveFirst(entries, fd) ==> e in entries
  {
    if entries != [] && entries[0].socketFd != fd {
      RemoveFirstKeepsOnly(entries[1..], fd);
    }
  }

  /** Removal keeps usernames distinct. */
  lemma {:induction false} RemoveFirstKeepsNamesUnique(entries: seq<ClientInfo>, fd: int)
    requires UniqueNames(entries)
    ensures UniqueNames(RemoveFirst(entries, fd))
  {
    if entries != [] {
      var tail := entries[1..];
      assert UniqueNames(tail) by {
        forall i, j | 0 <= i < j < |tail| ensures tail[i].username != tail[j].username {
          assert tail[i] == entries[i + 1] && tail[j] == entries[j + 1];
        }
      }
      if entries[0].socketFd != fd {
        RemoveFirstKeepsNamesUnique(tail, fd);
        RemoveFirstKeepsOnly(tail, fd);
        var rest := RemoveFirst(tail, fd);
        var all := [entries[0]] + rest;
        forall j | 0 < j < |all| ensures all[j].username != entries[0].username {
          assert all[j] == rest[j - 1] && rest[j - 1] in rest;
          var k :| 0 <= k < |tail| && tail[k] == rest[j - 1];
          assert tail[k] == entries[k + 1];
        }
        forall i, j | 0 < i < j < |all| ensures all[i] == rest[i - 1] && all[j] == rest[j - 1] { }
      }
    }
  }

  /** Removal keeps sockets distinct. */
  lemma {:induction false} RemoveFirstKeepsFdsUnique(entries: seq<ClientInfo>, fd: int)
    requires UniqueFds(entries)
    ensures UniqueFds(RemoveFirst(entries, fd))
  {
    if entries != [] {
      var tail := entries[1..];
      assert UniqueFds(tail) by {
        forall i, j | 0 <= i < j < |tail| ensures tail[i].socketFd != tail[j].socketFd {
          assert tail[i] == entries[i + 1] && tail[j] == entries[j + 1];
        }
      }
      if entries[0].socketFd != fd {
        RemoveFirstKeepsFdsUnique(tail, fd);
        RemoveFirstKeepsOnly(tail, fd);
        var rest := RemoveFirst(tail, fd);
        var all := [entries[0]] + rest;
        forall j | 0 < j < |all| ensures all[j].socketFd != entries[0].socketFd {
          assert all[j] == rest[j - 1] && rest[j - 1] in rest;
          var k :| 0 <= k < |tail| && tail[k] == rest[j - 1];
          assert tail[k] == entries[k + 1];
        }
        forall i, j | 0 < i < j < |all| ensures all[i] == rest[i - 1] && all[j] == rest[j - 1] { }
      }
    }
  }

  /** A client appended with a socket no other entry has, then removed by that
      socket, leaves the registry as it was. */
  lemma {:induction false} RemoveFirstAfterAppend(entries: seq<ClientInfo>, e: ClientInfo)
    requires !HasFd(entries, e.socketFd)
    ensures RemoveFirst(entries + [e], e.socketFd) == entries
  {
    var all := entries + [e];
    forall j | 0 <= j < |entries| ensures all[j].socketFd != e.socketFd {
      assert all[j] == entries[j];
    }
    RemoveFirstAt(all, e.socketFd, |entries|);
    assert all[..|entries|] == entries;
  }

  // ==========================================================================
  // Fan-out: one frame sent to every registered client, in index order
  // ==========================================================================

  function FanOut(entries: seq<ClientInfo>, frame: CString): seq<Send> {
    if entries == [] then []
    else FanOut(entries[..|entries| - 1], frame) + [Send(entries[|entries| - 1].socketFd, frame)]
  }

  /** The i-th send goes to the i-th entry, and every send carries the same frame. */
  lemma {:induction false} FanOutAt(entries: seq<ClientInfo>, frame: CString)
    ensures |FanOut(entries, frame)| == |entries|
    ensures forall i :: 0 <= i < |entries| ==> FanOut(entries, frame)[i] == Send(entries[i].socketFd, frame)
  {
    if entries != [] {
      var init := entries[..|entries| - 1];
      FanOutAt(init, frame);
      forall i | 0 <= i < |entries| - 1 ensures entries[i] == init[i] { }
    }
  }

  /** Every registered socket receives the frame. */
  lemma FanOutReaches(entries: seq<ClientInfo>, frame: CString, fd: int)
    requires HasFd(entries, fd)
    ensures Send(fd, frame) in FanOut(entries, frame)
  {
    var k :| 0 <= k < |entries| && entries[k].socketFd == fd;
    FanOutAt(entries, frame);
    assert FanOut(entries, frame)[k] == Send(fd, frame);
  }

  // ==========================================================================
  // The registry object
  // ==========================================================================

  class ClientRegistry {
    const clients: array<ClientInfo>
    var clientCount: int

    /** The registry invariant: 0 <= client_count <= MAX_CLIENTS. */
    ghost predicate Valid()
      reads this
    {
      clients.Length == MaxClients && 0 <= clientCount <= MaxClients
    }

    /** The live entries, in registration order. */
    ghost function Entries(): seq<ClientInfo>
      reads this, clients
      requires Valid()
    {
      clients[..clientCount]
    }

    /** The zero-initialised global clients array with client_count = 0. */
    constructor ()
      ensures Valid() && fresh(clients) && Entries() == []
    {
      clients := new ClientInfo[MaxClients](_ => ClientInfo(0, "", false));
      clientCount := 0;
    }

    /** add_client: -1 and nothing changed when the registry is full; otherwise
        0, and the client (its username cut to 31 characters, authenticated)
        appended after the existing entries. */
    method AddClient(fd: int, username: CString) returns (status: int)
      requires Valid()
      modifies this, clients
      ensures Valid()
      ensures status == (if old(clientCount) >= MaxClients then -1 else 0)
      ensures status == -1 ==> unchanged(this) && unchanged(clients)
      ensures status == 0 ==>
                Entries() == old(Entries()) + [ClientInfo(fd, Take(username, MaxUsername - 1), true)]
      ensures status == 0 ==> forall i :: old(clientCount) < i < MaxClients ==> clients[i] == old(clients[i])
    {
      if clientCount >= MaxClients {
        return -1;
      }
      clients[clientCount] := ClientInfo(fd, Take(username, MaxUsername - 1), true);
      clientCount := clientCount + 1;
      return 0;
    }

    /** remove_client: find the first entry with the socket, shift the later
        entries down by one and decrement the count; no match, no change. */
    method RemoveClient(fd: int)
      requires Valid()
      modifies this, clients
      ensures Valid()
      ensures Entries() == RemoveFirst(old(Entries()), fd)
    {
      var i := 0;
      while i < clientCount
        invariant 0 <= i <= clientCount
        invariant clientCount == old(clientCount) && clients[..] == old(clients[..])
        invariant forall j :: 0 <= j < i ==> clients[j].socketFd != fd
      {
        if clients[i].socketFd == fd {
          assert old(Entries()) == clients[..clientCount];
          RemoveFirstAt(old(Entries()), fd, i);
          ShiftDown(i);
          clientCount := clientCount - 1;
          return;
        }
        i := i + 1;
      }
      RemoveFirstAbsent(Entries(), fd);
    }

    /** The inner loop of remove_client: entries i + 1 .. client_count - 1
        each move one slot down, overwriting entry i. */
    method ShiftDown(i: int)
      requires Valid() && 0 <= i < clientCount
      modifies clients
      ensures clients[..clientCount - 1] == old(clients[..i]) + old(clients[i + 1..clientCount])
    {
      var j := i;
      while j < clientCount - 1
        invariant i <= j <= clientCount - 1
        invariant clients[..j] == old(clients[..i]) + old(clients[i + 1..j + 1])
        invariant clients[j..] == old(clients[j..])
      {
        clients[j] := clients[j + 1];
        j := j + 1;
      }
    }

    /** username_exists: a linear, case-sensitive search of the live entries. */
    method UsernameExists(name: CString) returns (taken: bool)
      requires Valid()
      ensures taken <==> NameTaken(Entries(), name)
    {
      var i := 0;
      while i < clientCount
        invariant 0 <= i <= clientCount
        invariant forall j :: 0 <= j < i ==> clients[j].username != name
      {
        if clients[i].username == name {
          assert Entries()[i].username == name;
          return true;
        }
        i := i + 1;
      }
      return false;
    }

    /** The send loop over the live entries, shared by broadcast_notification
        and the broadcast thread. */
    method SendToAll(frame: CString) returns (sends: seq<Send>)
      requires Valid()
      ensures sends == FanOut(Entries(), frame)
    {
      sends := [];
      var i := 0;
      while i < clientCount
        invariant 0 <= i <= clientCount
        invariant sends == FanOut(clients[..i], frame)
      {
        assert clients[..i + 1][..i] == clients[..i];
        sends := sends + [Send(clients[i].socketFd, frame)];
        i := i + 1;
      }
      assert clients[..i] == Entries();
    }

    /** broadcast_notification: the NOTIFY frame for the text, sent to every
        registered client. */
    method BroadcastNotification(text: CString) returns (sends: seq<Send>)
      requires Valid()
      ensures sends == FanOut(Entries(), FormatNotification(text))
    {
      sends := SendToAll(FormatNotification(text));
    }
  }
}
