// The server-side registry and the per-connection handler. `Server` owns
// the three maps; each `ClientHandler` owns the lines written to its client
// (`out`) and its cache of group memberships (`myGroups`). Every registry
// method is one atomic step, as its `synchronized` modifier makes it.
module ChatServer {
  import opened JavaText
  import opened Protocol

  /** A Java reference that may be null. */
  datatype Option<T> = None | Some(value: T)

  class Server {
    /** `clients`: registered name to handler. */
    var clients: map<string, ClientHandler>
    /** `groups`: group name to its members. */
    var groups: map<string, set<ClientHandler>>
    /** `groupOwners`: group name to the handler that created it. */
    var groupOwners: map<string, ClientHandler>
    /** Every handler constructed for this server: the objects a registry step may touch. */
    ghost var handlers: set<ClientHandler>

    /**
     * The registry's invariant: both group maps have the same keys, every
     * handler the maps mention belongs to this server, a name is registered
     * to the handler that bears it, and each handler's `myGroups` cache lists
     * exactly the groups whose member set holds it.
     */
    ghost predicate Valid()
      reads this, handlers`myGroups, handlers`clientName
    {
      groups.Keys == groupOwners.Keys
      && clients.Values <= handlers
      && groupOwners.Values <= handlers
      && (forall g :: g in groups ==> groups[g] <= handlers)
      && (forall k :: k in clients ==> clients[k].clientName == Some(k))
      && (forall h, g :: h in handlers && g in h.myGroups ==> g in groups && h in groups[g])
      && (forall g, h :: g in groups && h in groups[g] ==> g in h.myGroups)
    }

    /** A server with no client and no group (the listening socket is not part of this model). */
    constructor ()
      ensures Valid()
      ensures clients == map[] && groups == map[] && groupOwners == map[] && handlers == {}
    {
      clients, groups, groupOwners := map[], map[], map[];
      handlers := {};
    }

    /** `groupOwners.get(g) == r`: a missing group's owner is null, which is no requester. */
    predicate IsOwner(g: string, r: ClientHandler)
      reads this
    {
      g in groupOwners && groupOwners[g] == r
    }

    /** The three conditions under which add and remove change anything. */
    predicate Authorized(g: string, name: string, r: ClientHandler)
      reads this
    {
      g in groups && name in clients && IsOwner(g, r)
    }

    // -------------------------------------------------------------------
    // What one step does, as a relation between the state before and after

    /** `h` kept its group cache and received exactly `lines`. */
    twostate predicate Received(h: ClientHandler, new lines: seq<string>)
      reads h
    {
      h.myGroups == old(h.myGroups) && h.out == old(h.out) + lines
    }

    /** Every handler in `rs` received `line` once, no other handler received anything, no cache changed. */
    twostate predicate SentToEach(new rs: set<ClientHandler>, new line: string)
      reads this, handlers
    {
      handlers == old(handlers)
      && forall h :: h in old(handlers) ==> Received(h, if h in rs then [line] else [])
    }

    /**
     * The user-list broadcast, `order` being the order in which the key set
     * was iterated: it visits every registered name once, and each registered
     * handler received the "/users" line once.
     */
    twostate predicate UsersBroadcast(new order: seq<string>)
      reads this, handlers
    {
      Enumerates(order, clients.Keys) && SentToEach(clients.Values, UserList(order))
    }

    /** The handshake of `p`: `p` received the prompt, then the user list went out as by `UsersBroadcast(order)`. */
    twostate predicate PromptedAndListed(p: ClientHandler, new order: seq<string>)
      reads this, handlers
    {
      handlers == old(handlers)
      && Enumerates(order, clients.Keys)
      && forall h :: h in old(handlers) ==>
        Received(h, (if h == p then [Prompt] else []) + (if h in clients.Values then [UserList(order)] else []))
    }

    /** No map changed and only `r` received anything: exactly `lines`. */
    twostate predicate RepliesOnly(r: ClientHandler, new lines: seq<string>)
      reads this, handlers, r
    {
      clients == old(clients) && groups == old(groups) && groupOwners == old(groupOwners)
      && handlers == old(handlers)
      && Received(r, lines)
      && forall h :: h in old(handlers) && h != r ==> Received(h, [])
    }

    /** `r` received `toR` and then `t` received `toT` (one log when they are the same handler). */
    twostate predicate Delivered(r: ClientHandler, new toR: seq<string>, t: ClientHandler, new toT: seq<string>)
      reads r, t
    {
      if r == t then r.out == old(r.out) + toR + toT
      else r.out == old(r.out) + toR && t.out == old(t.out) + toT
    }

    /** Every group that had an owner still has the same owner. */
    twostate predicate OwnersKept()
      reads this
    {
      forall g :: g in old(groupOwners) ==> g in groupOwners && groupOwners[g] == old(groupOwners[g])
    }

    /**
     * Every group that gained an owner is owned by `c` and was named by a
     * `/create` line among `lines[1..upTo]`, the lines read after the name.
     */
    twostate predicate CreatedBy(c: ClientHandler, new lines: seq<string>, upTo: nat)
      requires upTo <= |lines|
      reads this
    {
      forall g :: g in groupOwners && g !in old(groupOwners) ==> groupOwners[g] == c && g in CreateNames(lines, upTo)
    }

    /** No handler outside `touched` changed. */
    twostate predicate OthersKept(touched: set<ClientHandler>)
      reads this, handlers
    {
      handlers == old(handlers) && forall h :: h in old(handlers) && h !in touched ==> Received(h, [])
    }

    /** The effect of `createGroup(g, c)`. */
    twostate predicate CreateEffect(new g: string, c: ClientHandler)
      reads this, handlers, c
    {
      if old(g in groups) then RepliesOnly(c, [GroupExists(g)])
      else
        clients == old(clients)
        && groups == old(groups)[g := {c}]
        && groupOwners == old(groupOwners)[g := c]
        && c.myGroups == old(c.myGroups) + {g}
        && c.out == old(c.out) + [GroupAdded(g), GroupCreated(g)]
        && OthersKept({c})
    }

    /** The effect of `addClientToGroup(g, name, r)`. */
    twostate predicate AddEffect(new g: string, new name: string, r: ClientHandler)
      reads this, handlers, r
    {
      if old(Authorized(g, name, r)) then
        var t := old(clients[name]);
        t in handlers
        && clients == old(clients) && groupOwners == old(groupOwners)
        && groups == old(groups)[g := old(groups[g]) + {t}]
        && t.myGroups == old(t.myGroups) + {g}
        && (t != r ==> r.myGroups == old(r.myGroups))
        && Delivered(r, [AddedConfirmation(name, g)], t, [GroupAdded(g), AddedNotice(g, r.NameText())])
        && OthersKept({r, t})
      else RepliesOnly(r, [if old(IsOwner(g, r)) then NoSuchGroupOrClient else OnlyOwnerAdds])
    }

    /** The effect of `removeClientFromGroup(g, name, r)`. */
    twostate predicate RemoveEffect(new g: string, new name: string, r: ClientHandler)
      reads this, handlers, r
    {
      if old(Authorized(g, name, r)) then
        var t := old(clients[name]);
        if old(t in groups[g]) then
          t in handlers
          && clients == old(clients) && groupOwners == old(groupOwners)
          && groups == old(groups)[g := old(groups[g]) - {t}]
          && t.myGroups == old(t.myGroups) - {g}
          && (t != r ==> r.myGroups == old(r.myGroups))
          && Delivered(r, [RemovedConfirmation(name, g)], t, [GroupRemoved(g), RemovedNotice(g, r.NameText())])
          && OthersKept({r, t})
        else RepliesOnly(r, [NotInGroup(name)])
      else RepliesOnly(r, [if old(IsOwner(g, r)) then NoSuchGroupOrClient else OnlyOwnerRemoves])
    }

    /** The effect of `broadcastToGroup(g, text, s)`. */
    twostate predicate GroupEffect(new g: string, new text: string, s: ClientHandler)
      reads this, handlers, s
    {
      if old(g in groups) then
        clients == old(clients) && groups == old(groups) && groupOwners == old(groupOwners)
        && SentToEach(old(groups[g]), GroupLine(g, s.NameText(), text))
      else RepliesOnly(s, [NoSuchGroup(g)])
    }

    /** The effect of dispatching the line `message` read by handler `h`. */
    twostate predicate LineEffect(h: ClientHandler, new message: string)
      reads this, handlers, h
    {
      match Parse(message)
      case Create(g) => CreateEffect(g, h)
      case Add(g, u) => AddEffect(g, u, h)
      case Remove(g, u) => RemoveEffect(g, u, h)
      case GroupMessage(g, text) =>
        if old(h.IsInGroup(g)) then GroupEffect(g, text, h) else RepliesOnly(h, [NotPartOfGroup])
      case Other => RepliesOnly(h, [])
      case Malformed => RepliesOnly(h, [])
    }

    // -------------------------------------------------------------------
    // The registry's operations

    /** `registerClient`: put `name` (replacing any handler registered under it), then broadcast the user list. */
    method RegisterClient(name: string, h: ClientHandler) returns (ghost order: seq<string>)
      requires Valid() && h in handlers && h.clientName == Some(name)
      modifies this`clients, handlers`out
      ensures Valid()
      ensures clients == old(clients)[name := h]
      ensures groups == old(groups) && groupOwners == old(groupOwners)
      ensures UsersBroadcast(order)
    {
      clients := clients[name := h];
      order := BroadcastUserList();
    }

    /** `unregisterClient`: remove `name` (nothing to remove when absent), then broadcast the user list. */
    method UnregisterClient(name: string) returns (ghost order: seq<string>)
      requires Valid()
      modifies this`clients, handlers`out
      ensures Valid()
      ensures clients == old(clients) - {name}
      ensures groups == old(groups) && groupOwners == old(groupOwners)
      ensures UsersBroadcast(order)
    {
      clients := clients - {name};
      order := BroadcastUserList();
    }

    /** The user-list line `broadcastUserList` builds: "/users ", each name and a space, trimmed. */
    method UserListLine() returns (line: string, ghost order: seq<string>)
      ensures Enumerates(order, clients.Keys) && line == UserList(order)
    {
      var text := "/users ";
      order := [];
      var rest := clients.Keys;
      while rest != {}
        invariant rest <= clients.Keys
        invariant Enumerates(order, clients.Keys - rest)
        invariant text == "/users " + Listed(order)
        decreases rest
      {
        var user :| user in rest;
        ListedAppend(order, user);
        text := text + user + " ";
        order := order + [user];
        rest := rest - {user};
      }
      assert clients.Keys - rest == clients.Keys;
      line := Trim(text);
    }

    /** `broadcastUserList`: every registered handler receives the user-list line once. */
    method BroadcastUserList() returns (ghost order: seq<string>)
      requires Valid()
      modifies handlers`out
      ensures Valid()
      ensures UsersBroadcast(order)
    {
      var line;
      line, order := UserListLine();
      Broadcast(line);
    }

    /** `broadcast`: every registered handler receives `message` once. */
    method Broadcast(message: string)
      requires Valid()
      modifies handlers`out
      ensures Valid()
      ensures SentToEach(clients.Values, message)
    {
      SendEach(clients.Values, message);
    }

    /** The fan-out loop: one `sendMessage(line)` per handler of `rs`, in any order. */
    method SendEach(rs: set<ClientHandler>, line: string)
      requires rs <= handlers
      modifies rs`out
      ensures SentToEach(rs, line)
    {
      var todo := rs;
      while todo != {}
        invariant todo <= rs
        invariant forall h :: h in handlers ==> h.out == old(h.out) + (if h in rs - todo then [line] else [])
        decreases todo
      {
        var h :| h in todo;
        h.SendMessage(line);
        todo := todo - {h};
      }
    }

    /** `createGroup`: a new group has its creator as sole member and owner; an existing name changes nothing. */
    method CreateGroup(g: string, creator: ClientHandler)
      requires Valid() && creator in handlers
      modifies this`groups, this`groupOwners, creator`myGroups, creator`out
      ensures Valid()
      ensures CreateEffect(g, creator)
    {
      if g !in groups {
        NewGroup(g, creator);
      } else {
        creator.SendMessage(GroupExists(g));
      }
    }

    /** The creating branch of `createGroup`: `g` gets `creator` as sole member and owner, and the creator is told. */
    method NewGroup(g: string, creator: ClientHandler)
      requires Valid() && creator in handlers && g !in groups
      modifies this`groups, this`groupOwners, creator`myGroups, creator`out
      ensures Valid()
      ensures groups == old(groups)[g := {creator}] && groupOwners == old(groupOwners)[g := creator]
      ensures creator.myGroups == old(creator.myGroups) + {g}
      ensures creator.out == old(creator.out) + [GroupAdded(g), GroupCreated(g)]
    {
      groups := groups[g := {creator}];
      groupOwners := groupOwners[g := creator];
      creator.AddGroup(g);
      creator.SendMessage(GroupCreated(g));
    }

    /**
     * `addClientToGroup`: acts only for the owner of an existing group and a
     * registered target; any other request is answered to the requester alone.
     */
    method AddClientToGroup(g: string, name: string, requester: ClientHandler)
      requires Valid() && requester in handlers
      modifies this`groups, handlers`myGroups, handlers`out
      ensures Valid()
      ensures AddEffect(g, name, requester)
      ensures old(IsOwner(g, requester) && !Authorized(g, name, requester)) ==> old(g in groups && name !in clients)
    {
      var group := if g in groups then Some(groups[g]) else None;
      var target := if name in clients then Some(clients[name]) else None;
      if group.Some? && target.Some? && IsOwner(g, requester) {
        AddMember(g, name, target.value, requester);
      } else if !IsOwner(g, requester) {
        requester.SendMessage(OnlyOwnerAdds);
      } else {
        requester.SendMessage(NoSuchGroupOrClient);
      }
    }

    /**
     * `removeClientFromGroup`: the same authorisation as adding; a target that
     * is not a member only earns the requester a notice.
     */
    method RemoveClientFromGroup(g: string, name: string, requester: ClientHandler)
      requires Valid() && requester in handlers
      modifies this`groups, handlers`myGroups, handlers`out
      ensures Valid()
      ensures RemoveEffect(g, name, requester)
      ensures old(IsOwner(g, requester) && !Authorized(g, name, requester)) ==> old(g in groups && name !in clients)
    {
      var group := if g in groups then Some(groups[g]) else None;
      var target := if name in clients then Some(clients[name]) else None;
      if group.Some? && target.Some? && IsOwner(g, requester) {
        if target.value in group.value {
          RemoveMember(g, name, target.value, requester);
        } else {
          requester.SendMessage(NotInGroup(name));
        }
      } else if !IsOwner(g, requester) {
        requester.SendMessage(OnlyOwnerRemoves);
      } else {
        requester.SendMessage(NoSuchGroupOrClient);
      }
    }

    /** The authorised branch of `addClientToGroup`: `t` joins `g`, the requester and then `t` are told. */
    method AddMember(g: string, name: string, t: ClientHandler, requester: ClientHandler)
      requires Valid() && requester in handlers && Authorized(g, name, requester) && t == clients[name]
      modifies this`groups, t`myGroups, t`out, requester`out
      ensures Valid()
      ensures groups == old(groups)[g := old(groups[g]) + {t}]
      ensures t.myGroups == old(t.myGroups) + {g}
      ensures Delivered(requester, [AddedConfirmation(name, g)], t, [GroupAdded(g), AddedNotice(g, requester.NameText())])
    {
      groups := groups[g := groups[g] + {t}];
      requester.SendMessage(AddedConfirmation(name, g));
      t.AddGroup(g);
      t.SendMessage(AddedNotice(g, requester.NameText()));
      forall h, g' | h in handlers && g' in h.myGroups ensures g' in groups && h in groups[g'] {
        if g' != g { assert g' in old(h.myGroups); }
      }
      forall g', h | g' in groups && h in groups[g'] ensures g' in h.myGroups {
        if g' != g { assert h in old(groups[g']); }
      }
    }

    /** The authorised branch of `removeClientFromGroup` for a member `t`: `t` leaves `g`, the requester and then `t` are told. */
    method RemoveMember(g: string, name: string, t: ClientHandler, requester: ClientHandler)
      requires Valid() && requester in handlers && Authorized(g, name, requester) && t == clients[name] && t in groups[g]
      modifies this`groups, t`myGroups, t`out, requester`out
      ensures Valid()
      ensures groups == old(groups)[g := old(groups[g]) - {t}]
      ensures t.myGroups == old(t.myGroups) - {g}
      ensures Delivered(requester, [RemovedConfirmation(name, g)], t, [GroupRemoved(g), RemovedNotice(g, requester.NameText())])
    {
      groups := groups[g := groups[g] - {t}];
      requester.SendMessage(RemovedConfirmation(name, g));
      t.RemoveGroup(g);
      t.SendMessage(RemovedNotice(g, requester.NameText()));
      forall h, g' | h in handlers && g' in h.myGroups ensures g' in groups && h in groups[g'] {
        if g' != g { assert g' in old(h.myGroups); }
      }
      forall g', h | g' in groups && h in groups[g'] ensures g' in h.myGroups {
        if g' != g { assert h in old(groups[g']); }
      }
    }

    /** `broadcastToGroup`: each current member receives the tagged line once; a missing group is reported to the sender. */
    method BroadcastToGroup(g: string, message: string, sender: ClientHandler)
      requires Valid() && sender in handlers
      modifies handlers`out
      ensures Valid()
      ensures GroupEffect(g, message, sender)
    {
      if g in groups {
        SendEach(groups[g], GroupLine(g, sender.NameText(), message));
      } else {
        sender.SendMessage(NoSuchGroup(g));
      }
    }
  }

  class ClientHandler {
    const server: Server
    /** The name read at the handshake; None until then, and when the stream ended first. */
    var clientName: Option<string>
    /** The groups this handler has been told it belongs to. */
    var myGroups: set<string>
    /** Every line written to this client, oldest first. */
    var out: seq<string>

    /** A handler for a newly accepted connection (the socket is not part of this model). */
    constructor (server: Server)
      requires server.Valid()
      modifies server`handlers
      ensures this.server == server && clientName == None && myGroups == {} && out == []
      ensures server.handlers == old(server.handlers) + {this}
      ensures server.Valid()
    {
      this.server := server;
      clientName := None;
      myGroups := {};
      out := [];
      new;
      server.handlers := server.handlers + {this};
    }

    /** `getClientName()` as string concatenation renders it: "null" before the handshake. */
    function NameText(): string
      reads this
    {
      if clientName.Some? then clientName.value else "null"
    }

    /** `sendMessage`: one line to this client. */
    method SendMessage(message: string)
      modifies this`out
      ensures out == old(out) + [message]
    {
      out := out + [message];
    }

    /** `addGroup`: note the group in the cache and tell the client. */
    method AddGroup(g: string)
      modifies this`myGroups, this`out
      ensures myGroups == old(myGroups) + {g}
      ensures out == old(out) + [GroupAdded(g)]
    {
      myGroups := myGroups + {g};
      SendMessage(GroupAdded(g));
    }

    /** `removeGroup`: drop the group from the cache and tell the client. */
    method RemoveGroup(g: string)
      modifies this`myGroups, this`out
      ensures myGroups == old(myGroups) - {g}
      ensures out == old(out) + [GroupRemoved(g)]
    {
      myGroups := myGroups - {g};
      SendMessage(GroupRemoved(g));
    }

    /** `isInGroup`: the cached membership. */
    predicate IsInGroup(g: string)
      reads this
    {
      g in myGroups
    }

    /** In a valid registry the cache `isInGroup` reads agrees with the group's member set. */
    lemma CachedMembership(g: string)
      requires server.Valid() && this in server.handlers
      ensures IsInGroup(g) <==> g in server.groups && this in server.groups[g]
    {
    }

    /** `clientName = in.readLine()` for a line: a handler not yet registered takes its name. */
    method TakeName(name: string)
      requires server.Valid() && this in server.handlers && clientName == None
      modifies this`clientName
      ensures clientName == Some(name)
      ensures server.Valid()
    {
      clientName := Some(name);
    }

    /**
     * The handshake: write the prompt, read the name, and register it unless
     * the read gave null or a blank line.
     */
    method Handshake(first: Read) returns (registered: bool, ghost order: seq<string>)
      requires server.Valid() && this in server.handlers && clientName == None
      modifies this`clientName, server`clients, server.handlers`out
      ensures server.Valid()
      ensures registered <==> first.Line? && Trim(first.text) != []
      ensures clientName == (if first.Line? then Some(first.text) else None)
      ensures server.groups == old(server.groups) && server.groupOwners == old(server.groupOwners)
      ensures registered ==> server.clients == old(server.clients)[first.text := this] && server.PromptedAndListed(this, order)
      ensures !registered ==> server.RepliesOnly(this, [Prompt])
    {
      SendMessage(Prompt);
      registered, order := false, [];
      if first.Line? {
        TakeName(first.text);
        if Trim(first.text) != [] {
          label Prompted:
          order := server.RegisterClient(first.text, this);
          registered := true;
          forall h | h in old(server.handlers)
            ensures server.Received(h, (if h == this then [Prompt] else []) + (if h in server.clients.Values then [UserList(order)] else []))
          {
            var listed := if h in server.clients.Values then [UserList(order)] else [];
            assert server.Received@Prompted(h, listed);
            assert h.out == old@Prompted(h.out) + listed;
            if h == this {
              assert old@Prompted(h.out) == old(h.out) + [Prompt];
            } else {
              assert old@Prompted(h.out) == old(h.out);
            }
          }
        }
      }
    }

    /**
     * One line of the read loop: dispatch the command it carries and say
     * whether the loop goes on, stops (an exit line) or dies (a command with
     * missing arguments).
     */
    method HandleLine(message: string) returns (step: Step)
      requires server.Valid() && this in server.handlers
      modifies server`groups, server`groupOwners, server.handlers`myGroups, server.handlers`out
      ensures server.Valid()
      ensures step == StepOf(message)
      ensures server.LineEffect(this, message)
      ensures server.groupOwners == old(server.groupOwners)
        || (Parse(message).Create? && Parse(message).group !in old(server.groupOwners)
            && server.groupOwners == old(server.groupOwners)[Parse(message).group := this])
    {
      step := StepOf(message);
      match Parse(message)
      case Create(g) => server.CreateGroup(g, this);
      case Add(g, u) => server.AddClientToGroup(g, u, this);
      case Remove(g, u) => server.RemoveClientFromGroup(g, u, this);
      case GroupMessage(g, text) =>
        if IsInGroup(g) {
          server.BroadcastToGroup(g, text, this);
        } else {
          SendMessage(NotPartOfGroup);
        }
      case Other =>
      case Malformed =>
    }

    /**
     * The `while` loop of `run` after the handshake: dispatch the lines from
     * the second on, one at a time, until one stops or faults the loop or the
     * lines run out; `k` is where it left.
     */
    method ReadLoop(lines: seq<string>) returns (k: nat)
      requires server.Valid() && this in server.handlers && |lines| >= 1
      modifies server`groups, server`groupOwners, server.handlers`myGroups, server.handlers`out
      ensures server.Valid()
      ensures k == StopAt(lines, 1)
      ensures server.OwnersKept()
      ensures server.CreatedBy(this, lines, k)
      ensures forall g :: g in CreateNames(lines, k) ==> g in server.groupOwners
    {
      k := 1;
      var stopped := false;
      while k < |lines| && !stopped
        invariant 1 <= k <= |lines|
        invariant server.Valid()
        invariant stopped ==> k < |lines| && StopAt(lines, k) == k
        invariant StopAt(lines, 1) == StopAt(lines, k)
        invariant server.OwnersKept()
        invariant server.CreatedBy(this, lines, k)
        invariant forall g :: g in CreateNames(lines, k) ==> g in server.groupOwners
        decreases |lines| - k, !stopped
      {
        label Before:
        var step := HandleLine(lines[k]);
        if step == Continue {
          k := k + 1;
        } else {
          if step == Stop {
            ExitIsPlain(lines[k]);
          }
          assert server.groupOwners == old@Before(server.groupOwners);
          stopped := true;
        }
      }
    }

    /**
     * `run`: the handshake, then one dispatch per line until an exit line,
     * the end of the stream, a malformed command or a failed read; only the
     * first two unregister the name.
     */
    method Run(lines: seq<string>, end: StreamEnd) returns (outcome: Outcome)
      requires server.Valid() && this in server.handlers && clientName == None
      modifies this`clientName, server`clients, server`groups, server`groupOwners
      modifies server.handlers`myGroups, server.handlers`out
      ensures server.Valid()
      ensures outcome == SessionOutcome(lines, end)
      ensures clientName == (if |lines| > 0 then Some(lines[0]) else None)
      ensures !Registers(lines) ==> server.clients == old(server.clients)
      ensures !Registers(lines) ==> server.RepliesOnly(this, [Prompt])
      ensures Registers(lines) && outcome == Closed ==> server.clients == old(server.clients)[lines[0] := this] - {lines[0]}
      ensures Registers(lines) && outcome != Closed ==> server.clients == old(server.clients)[lines[0] := this]
      ensures server.OwnersKept() && server.CreatedBy(this, lines, |lines|)
    {
      var registered, _ := Handshake(ReadAt(lines, end, 0));
      if !registered {
        outcome := if |lines| == 0 && end.ReadError? then ReadFailed else Unnamed;
        return;
      }
      var k := ReadLoop(lines);
      CreateNamesGrow(lines, k, |lines|);
      if k < |lines| && StepOf(lines[k]) == Fault {
        outcome := Crashed;
        return;
      }
      if k == |lines| && end.ReadError? {
        outcome := ReadFailed;
        return;
      }
      ghost var order := server.UnregisterClient(lines[0]);
      outcome := Closed;
    }
  }
}
