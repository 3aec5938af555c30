# Chat server registry — a Dafny model

This project models the server side of a line-oriented group-chat service
(`Server.java`). The model has two parts:

- the **registry** (`Server`), which holds three maps. `clients` maps a name
  to its handler. `groups` maps a group name to its member set. `groupOwners`
  maps a group name to its creator.
- the per-connection **handler** (`ClientHandler`). It holds the name read
  at the handshake, its cache `myGroups` of the groups it has been told it
  belongs to, and every line written to its client.

Every `synchronized` registry method is modelled as one atomic step on a
Dafny class. Handlers are Dafny object references, so the owner check
`groupOwners.get(g) == requester` is reference identity, as in Java.
`sendMessage` appends the line to the handler's `out` sequence. A fan-out is
therefore stated as "every recipient's log grew by exactly this one line,
and every other handler's log is unchanged".

The project has three modules:

- `JavaText` (`java_text.dfy`) models the `java.lang.String` operations the
  protocol code relies on. These are `trim`, `split(" ")`, `split(" ", 2)`,
  `startsWith` and `equalsIgnoreCase`, with Java's edge cases. For example,
  `"".split(" ")` is `[""]`, `" ".split(" ")` is `[]`, and trailing empty
  fields are dropped.
- `Protocol` (`protocol.dfy`) holds every line the server writes and the
  `/users` line. `Parse` is the command dispatch of one read line. The
  module also covers how a session's read loop ends.
- `ChatServer` (`server.dfy`) holds the classes `Server` and `ClientHandler`.

The registry invariant `Server.Valid()` states four things:

- both group maps have the same keys;
- a name is registered to the handler that bears it;
- every referenced handler belongs to the server;
- the `myGroups` cache is consistent with `groups`. A handler has `g` in
  `myGroups` exactly when it is in `groups[g]`.

Every registry operation preserves this invariant. Each operation's effect
is a `twostate` predicate: `CreateEffect`, `AddEffect`, `RemoveEffect`,
`GroupEffect` and `LineEffect`. Each predicate states the whole new state
and every line sent, branch by branch, as the code decides it.

In these places the code differs from what a reader of the protocol would
expect, and the model follows the code. The client sends a plain line as is
and renders any reply of the form `<sender>: <text>` as chat
(Client.java:90-99, 171-184), which suggests plain lines are meant to be
shared. One would also expect a notice for a malformed command, and the name
to be unregistered whenever a session ends.

- A line that is not a command is only echoed on the server console
  (Server.java:187-189). It is not broadcast to the other clients.
- A command whose arguments are missing (`/create` alone, `/add g`) raises
  `ArrayIndexOutOfBoundsException` in `run`. No notice is sent. The
  exception is not an `IOException`, so it escapes `run`, and the name stays
  registered. The model names this outcome `Crashed`.
- A failed read raises `IOException`. The handler catches it, and the
  `unregisterClient` call after the loop is skipped, so the name also stays
  registered (outcome `ReadFailed`). Only an `exit` line or the end of the stream
  unregisters.
- The handshake registers any non-blank line, spaces included
  (Server.java:153-157). The `/users` line separates names by spaces, and
  the client splits it on spaces (Client.java:150-152), so the name "a b"
  is listed as the two users "a" and "b" (`SpacedNameSplits`), and " b" as
  an empty name and "b" (`LeadingSpaceNameSplits`).
- `registerClient` silently replaces a handler already registered under the
  same name. `unregisterClient(name)` then removes whichever handler holds
  the name at that moment.

## Model

| member | source | states |
|---|---|---|
| `JavaText.TrailingBlanks` | Server.java:39 | the count of trailing characters up to U+0020 that `trim` strips: all of them are strippable, and the character before them is not |
| `JavaText.LeadingBlanks` | Server.java:154 | the count of leading characters `trim` strips: all of them are strippable, and the next one is not |
| `JavaText.TrimEmptyIffBlank` | Server.java:154 | `trim()` yields the empty string exactly when every character is at most U+0020 (both directions) |
| `JavaText.Trim` | Server.java:154 | `trim()` never lengthens a string and empties a blank one; `TrimEmptyIffBlank` gives the converse and `TrimEnds` the visible ends |
| `JavaText.TrimEnds` | Server.java:39 | neither end of a trimmed string is a character up to U+0020 |
| `JavaText.TrimFromVisibleStart` | Server.java:39 | a string starting with a visible character loses only its tail to `trim` |
| `JavaText.IndexOf` | Server.java:162 | the first position of the separator, or the length when it is absent; no earlier position holds it |
| `JavaText.SplitOnce` | Server.java:162 | `split(sep, 2)` gives one piece (the whole string) exactly when `sep` is absent; otherwise it gives two pieces that rebuild the string around the first `sep`, the first piece free of `sep` |
| `JavaText.Fields` | Server.java:169 | the pieces between separators are at least one and none contains the separator |
| `JavaText.JoinFields` | Server.java:169 | splitting into fields loses nothing: joining them back gives the input |
| `JavaText.FieldsJoin` | Server.java:174 | separator-free pieces, joined and split again, come back unchanged |
| `JavaText.DropTrailingEmpty` | Server.java:169 | `split(" ")` drops exactly the trailing empty fields: the result is a prefix, everything dropped is empty, and the last kept field is non-empty |
| `JavaText.Split` | Server.java:169 | `split(" ")` gives pieces free of spaces, the whole string when it has no space, and never ends in an empty piece after the first; `JoinFields` and `SplitJoin` relate it to joining |
| `JavaText.SplitJoin` | Server.java:174 | `split(" ")` inverts the space-join of separator-free pieces whose last piece is non-empty |
| `JavaText.CharEqualsIgnoreCase` | Server.java:165 | the per-character test of `equalsIgnoreCase`: equal, equal upper cases, or equal lower cases of the upper cases; `MatchLetter` and `MatchNonLetter` characterise it against ASCII |
| `JavaText.EqualsIgnoreCase` | Server.java:191 | `equalsIgnoreCase` is reflexive; against an ASCII keyword it is exactly what `MatchLetter` and `MatchNonLetter` describe position by position |
| `JavaText.MatchLetter` | Server.java:165 | `equalsIgnoreCase` against a lower-case ASCII letter accepts that letter, its capital and the non-ASCII characters Java folds onto it (dotted and dotless i, long s, Kelvin sign), and nothing else |
| `JavaText.MatchNonLetter` | Server.java:191 | against an ASCII non-letter (such as `/`), `equalsIgnoreCase` accepts only that character |
| `Protocol.ListedAppend` | Server.java:36-38 | the user-list loop appends each visited name followed by one space |
| `Protocol.ListedJoin` | Server.java:35-38 | "/users " followed by the listed names is the space-join of "/users" and the names, plus one trailing space |
| `Protocol.UserList` | Server.java:35-39 | the `/users` line: "/users " followed by each name visited and one space, trimmed; `UserListSplits`, `SpacedNameSplits` and `LeadingSpaceNameSplits` state how it decodes |
| `Protocol.UserListSplits` | Server.java:34-40 | for names that are non-empty and hold no character up to U+0020, the trimmed `/users` line decodes: split on spaces, it gives "/users" followed by exactly those names in the order they were visited; the handshake does not enforce this restriction, see `SpacedNameSplits` |
| `Protocol.SpacedNameSplits` | Server.java:34-40 | a registered name "u v" made of two visible words reads back from the `/users` line as the two users "u" and "v" |
| `Protocol.LeadingSpaceNameSplits` | Server.java:34-40 | a registered name " v" reads back from the `/users` line as an empty name followed by "v" |
| `Protocol.Parse` | Server.java:162-189 | the dispatch of one line: anything but console text starts with '/'; `ParseFormat`, `ParseAnyCase`, `ParseGroupPrefix`, `PlainLine`, `UnknownWord`, `NoArgument`, `OneArgument` and `GroupWordIsCaseSensitive` state what each kind of line dispatches to, the malformed ones included |
| `Protocol.Dispatch` | Server.java:163-189 | the branch order on the first token: "/create", "/add", "/remove" up to case, then the "/group" prefix, else console text; `NoArgument` and `OneArgument` state which lines are `Malformed`, and `UnknownWord` that any other first word is console text |
| `Protocol.NoArgument` | Server.java:162-181 | a command word ("/create", "/add", "/remove" up to case, or any "/group…" word) alone on its line is `Malformed`: `tokens[1]` is out of bounds |
| `Protocol.OneArgument` | Server.java:168-181 | "/add g", "/remove g" and "/group… g" with a single space-free argument are `Malformed`: `params[1]` is out of bounds |
| `Protocol.UnknownWord` | Server.java:162-189 | a space-free first word that is none of the command words makes the line console text, whatever follows it (so "/hello x" is not a command) |
| `Protocol.Pair` | Server.java:169-171 | the first two parameters of `/add` or `/remove`, fewer than two being the `ArrayIndexOutOfBoundsException`; stated through `ParseAdd` and `ParseRemove` |
| `Protocol.SplitOnceAfterWord` | Server.java:162 | a line that starts with a space-free word and a space splits exactly there |
| `Protocol.ParseCreate` | Server.java:165-167 | a word equal to "/create" up to case, then a space and a group name, dispatches to `createGroup` with that name |
| `Protocol.ParseAdd` | Server.java:168-172 | "/add" in any case with two space-free arguments, the second non-empty, dispatches to `addClientToGroup` with those arguments |
| `Protocol.ParseRemove` | Server.java:173-177 | "/remove" in any case with two space-free arguments, the second non-empty, dispatches to `removeClientFromGroup` with those arguments |
| `Protocol.ParseAnyCase` | Server.java:165-177 | every well-formed `/create`, `/add` or `/remove` line is read back as the same command, whatever the case of its command word |
| `Protocol.ParseGroupPrefix` | Server.java:178-181 | any space-free first token beginning with "/group" (so "/groups" as well) carries a group message: the next word is the group and all of the rest of the line is the text |
| `Protocol.GroupWordIsCaseSensitive` | Server.java:178 | "/GROUP …" and "/Group …" are never group messages, because the prefix test is case-sensitive |
| `Protocol.ParseFormat` | Server.java:162-186 | parsing inverts formatting: every command written in its canonical spelling `Format` is read back unchanged |
| `Protocol.PlainLine` | Server.java:187-189 | a line that does not start with '/' is no command and is only echoed on the console |
| `Protocol.ExitIsPlain` | Server.java:187-189 | an `exit` line, in any case, is no command: it is dispatched as console text |
| `Protocol.IsExit` | Server.java:191 | the exit test `message.equalsIgnoreCase("exit")`; `ExitIsPlain` and `StepOf` state that such a line is console text and stops the loop |
| `Protocol.StepOf` | Server.java:162-193 | the loop faults exactly on a malformed command and stops exactly on an `exit` line (in any case), which is never malformed |
| `Protocol.CreateNamesIff` | Server.java:165-167 | a group is among the names the lines after the name ask to create exactly when one of those lines is a `/create` line for it (both directions) |
| `Protocol.StopAt` | Server.java:161-194 | the first line after which the loop leaves: every earlier line continues the loop, and this one stops it or faults |
| `Protocol.ReadAt` | Server.java:153 | `readLine` yields the next line while lines remain; afterwards it yields null at end of stream, or an `IOException` |
| `Protocol.Registers` | Server.java:154 | the handshake's name check: a first line was read and its `trim()` is non-empty; `TrimEmptyIffBlank` states that this means some character is above U+0020 |
| `Protocol.SessionOutcome` | Server.java:153-203 | a session stays unnamed exactly when its first line is blank, or the stream ends before one is read; a crash needs a malformed command after the name; a failed read needs a read error |
| `Protocol.ClosedIff` | Server.java:161-203 | a registered session is unregistered exactly when an `exit` line or the end of the stream comes before any malformed command and any failed read |
| `ChatServer.Server.constructor` | Server.java:7-9 | a new registry has no client, no group and no owner, and is valid |
| `ChatServer.Server.RegisterClient` | Server.java:24-27 | `clients` gains (or overwrites) the name; the groups are unchanged; each handler registered after the put receives one `/users` line listing every registered name once |
| `ChatServer.Server.UnregisterClient` | Server.java:29-32 | the name is removed (a missing name is a no-op); each handler still registered receives one `/users` line listing every remaining name once |
| `ChatServer.Server.UserListLine` | Server.java:34-39 | the line built over the key set is "/users " followed by each registered name, in one iteration order that visits every name exactly once, trimmed |
| `ChatServer.Server.BroadcastUserList` | Server.java:34-40 | every registered handler receives the user-list line once, and no other handler receives anything |
| `ChatServer.Server.Broadcast` | Server.java:42-46 | every registered handler receives the message exactly once, and no other handler receives anything |
| `ChatServer.Server.SendEach` | Server.java:98-100 | the fan-out loop: each recipient receives the line exactly once, in any order, and no other handler's log or cache changes |
| `ChatServer.Server.CreateGroup` | Server.java:48-57 | an unused name becomes a group with the creator as sole member and owner, the creator's cache gains it, and the creator receives `/groupadded <g>` and then the creation notice; an existing name changes nothing and only the creator receives "already exists" |
| `ChatServer.Server.NewGroup` | Server.java:49-53 | the creating branch: the group and owner entries are put, the creator's cache gains the group, and the creator receives the two lines in order, with the registry still valid |
| `ChatServer.Server.IsOwner` | Server.java:63-68 | the owner test `groupOwners.get(g) == requester` by reference (also Server.java:79 and 87 for removal); a missing group's owner is null and never equals a requester; `AddClientToGroup` and `RemoveClientFromGroup` state the authorisation it decides |
| `ChatServer.Server.AddClientToGroup` | Server.java:59-73 | the group changes only when it exists, the target is registered and the requester is its owner by reference; otherwise nothing changes and only the requester is told; a non-owner (including for a missing group) gets "Only the group owner can add members.", and "Group or client does not exist." is reached only by the owner naming an unregistered target |
| `ChatServer.Server.AddMember` | Server.java:63-67 | the authorised branch: the target joins the set and its cache, the requester receives the confirmation, and the target receives `/groupadded` and then the notice naming the requester |
| `ChatServer.Server.RemoveClientFromGroup` | Server.java:75-92 | same authorisation and replies as adding; an authorised target that is not a member changes nothing and earns the requester "<user> is not in the group." |
| `ChatServer.Server.RemoveMember` | Server.java:80-83 | the authorised branch for a member: the target leaves the set and its cache, the requester receives the confirmation, and the target receives `/groupremoved` and then the notice |
| `ChatServer.Server.BroadcastToGroup` | Server.java:94-104 | an existing group's members each receive `[<g>] <sender>: <msg>` once and nobody else receives anything; a missing group earns only the sender "Group '<g>' does not exist."; no map changes either way |
| `ChatServer.ClientHandler.constructor` | Server.java:118-123 | a new handler has no name, an empty group cache and an empty log, and joins the server's handlers without breaking validity |
| `ChatServer.ClientHandler.NameText` | Server.java:125-127 | `getClientName()` as the notices and group lines print it (Server.java:67, 83, 99): the name read at the handshake, or "null" before it |
| `ChatServer.ClientHandler.SendMessage` | Server.java:143-145 | the client's log grows by exactly the one line |
| `ChatServer.ClientHandler.AddGroup` | Server.java:129-132 | the cache gains the group and the client receives `/groupadded <g>` |
| `ChatServer.ClientHandler.RemoveGroup` | Server.java:134-137 | the cache loses the group and the client receives `/groupremoved <g>` |
| `ChatServer.ClientHandler.IsInGroup` | Server.java:139-141 | `isInGroup` reads the cache `myGroups`; `CachedMembership` proves it agrees with the registry |
| `ChatServer.ClientHandler.CachedMembership` | Server.java:139-141 | in a valid registry, `isInGroup(g)` holds exactly when the group exists and its member set holds this handler (the `Valid()` cache invariant) |
| `ChatServer.ClientHandler.TakeName` | Server.java:153 | the name read at the handshake is stored on a handler not yet registered, and the registry stays valid |
| `ChatServer.ClientHandler.Handshake` | Server.java:152-157 | the prompt goes out first; the client registers exactly when the first read gives a non-blank line, and then every registered handler receives the `/users` line; a null, blank or failed first read changes no map and sends only the prompt |
| `ChatServer.ClientHandler.HandleLine` | Server.java:162-193 | one dispatched line has exactly the effect of the parsed command; `/group` is forwarded only when the cached membership holds, and otherwise the sender alone gets "You are not part of this group."; other and malformed lines change nothing and send nothing; the returned step says whether the loop continues, stops on `exit`, or faults |
| `ChatServer.ClientHandler.ReadLoop` | Server.java:160-194 | the `while readLine` loop dispatches lines from the second on and leaves exactly at `StopAt`: the first line that stops (`exit`) or faults (a malformed command), or when the lines run out; the registry stays valid, every group keeps its owner, and every group a dispatched `/create` line names exists afterwards; with no other session creating a group meanwhile, every group created during the loop is owned by this client and was named by a `/create` line it dispatched |
| `ChatServer.ClientHandler.Run` | Server.java:147-204 | the session's outcome is the one `SessionOutcome` computes; an unnamed session changes no map and sends only the prompt; with no other session acting meanwhile, a closed session ends with its name put and then removed, and a crashed or failed session leaves its name registered; every group keeps its owner; with no other session creating a group meanwhile, every new group is owned by this client and named by one of its `/create` lines |

## Left out

- The listening socket, the accept loop, `Server.start` and `main`
  (Server.java:11-22, 106-109) are network I/O and are not modelled.
- Threads and `synchronized`: each registry method is one atomic step, and
  sessions do not interleave within a step.
- Streams, `PrintWriter`/`BufferedReader` setup and closing, the
  `System.out.println` console echoes and `printStackTrace` are not
  modelled. `sendMessage` is an append to the handler's `out` log. The lines
  read from the client are a parameter of `Run`: the lines, then how the
  stream ends (end of stream or a read error).
- `HashMap`/`HashSet` iteration order is unspecified. The `/users` payload is
  stated for some order that visits every registered name once
  (`Enumerates`). Fan-out is stated per recipient, so delivery order across
  recipients is not modelled.
- `JavaText.MatchLetter`: `equalsIgnoreCase` is exact only against ASCII
  text, which covers every comparison the server makes ("/create", "/add",
  "/remove", "exit"). Two non-ASCII characters that differ only in case are
  not treated as equal.
- `ChatServer.ClientHandler.Run`: states the outcome, the final `clients`
  map and the ownership of groups, not the lines written or the membership
  changes made while the loop runs. Each line's effect is stated by
  `HandleLine`. `Run` describes one session
  with no other session's registry step between its reads. Each session runs
  on its own thread (Server.java:19-20, 112), so other clients may register
  or unregister between this session's `registerClient` and
  `unregisterClient`, and may create groups (Server.java:48-51) while this
  session's loop runs. When sessions interleave, the claims about the final
  `clients` map do not hold, and neither does `CreatedBy`: a group another
  client creates meanwhile is owned by that client. `OwnersKept` still holds,
  since owners never change and groups are never deleted, and so do the
  per-step contracts of `Handshake`, `HandleLine` and `UnregisterClient`.
- `ChatServer.ClientHandler.ReadLoop`: states where the loop leaves and what
  happens to group ownership, not the lines written or the membership
  changes of the dispatched lines taken together; each line's whole effect
  is stated by `HandleLine`. Like `Run`, it describes one session with no
  other session's registry step between its reads: its `CreatedBy` clause
  holds only when no other session creates a group during the loop, while
  `OwnersKept` and "every group a dispatched `/create` line names exists
  afterwards" hold regardless.
- Client.java is not part of this model. It is the Swing client (windows,
  dialogs, a reader thread) and only renders the lines described here.
