// The chat protocol as text: every line the server writes, how a line read
// from a client is taken apart into a command, the `/users` line, and how a
// session's read loop ends.
module Protocol {
  import opened JavaText

  // ---------------------------------------------------------------------
  // Lines the server writes

  /** The handshake prompt, written before the name is read. */
  const Prompt: string := "Please enter your name: "

  /** Membership signal for a client that joined group `g` (at creation too). */
  function GroupAdded(g: string): string { "/groupadded " + g }

  /** Membership signal for a client that was taken out of group `g`. */
  function GroupRemoved(g: string): string { "/groupremoved " + g }

  function GroupCreated(g: string): string { "Group '" + g + "' created." }

  function GroupExists(g: string): string { "Group '" + g + "' already exists." }

  function AddedConfirmation(user: string, g: string): string
  {
    user + " has been added to group '" + g + "'."
  }

  function AddedNotice(g: string, requester: string): string
  {
    "You have been added to group '" + g + "' by " + requester + "."
  }

  const OnlyOwnerAdds: string := "Only the group owner can add members."

  const NoSuchGroupOrClient: string := "Group or client does not exist."

  function RemovedConfirmation(user: string, g: string): string
  {
    user + " has been removed from group '" + g + "'."
  }

  function RemovedNotice(g: string, requester: string): string
  {
    "You have been removed from group '" + g + "' by " + requester + "."
  }

  function NotInGroup(user: string): string { user + " is not in the group." }

  const OnlyOwnerRemoves: string := "Only the group owner can remove members."

  /** A group message as every member receives it. */
  function GroupLine(g: string, sender: string, text: string): string
  {
    "[" + g + "] " + sender + ": " + text
  }

  function NoSuchGroup(g: string): string { "Group '" + g + "' does not exist." }

  const NotPartOfGroup: string := "You are not part of this group."

  // ---------------------------------------------------------------------
  // The `/users` line

  /** Each name followed by one space, as the user-list loop appends them. */
  function Listed(names: seq<string>): string
  {
    if names == [] then "" else names[0] + " " + Listed(names[1..])
  }

  /** The user-list line for the names visited in `order`: "/users " and the names, trimmed. */
  function UserList(order: seq<string>): string
  {
    Trim("/users " + Listed(order))
  }

  /** `order` visits every name of `keys` exactly once (one possible iteration order of a key set). */
  ghost predicate Enumerates(order: seq<string>, keys: set<string>)
  {
    (forall i, j :: 0 <= i < j < |order| ==> order[i] != order[j])
    && (forall u :: u in order <==> u in keys)
  }

  /** A name that survives the protocol's space-separated encoding: non-empty, no space or control character. */
  predicate IsVisibleName(u: string)
  {
    u != [] && forall i :: 0 <= i < |u| ==> !IsTrimmable(u[i])
  }

  lemma {:induction false} ListedAppend(names: seq<string>, u: string)
    ensures Listed(names + [u]) == Listed(names) + u + " "
  {
    if names != [] {
      assert (names + [u])[1..] == names[1..] + [u];
      ListedAppend(names[1..], u);
    }
  }

  /** A head followed by the listed names is the space-join of all of them plus one space. */
  lemma {:induction false} ListedJoin(head: string, names: seq<string>)
    ensures head + " " + Listed(names) == Join([head] + names, ' ') + " "
    decreases |names|
  {
    if names != [] {
      ListedJoin(names[0], names[1..]);
      assert ([head] + names)[1..] == [names[0]] + names[1..];
    }
  }

  /** The last character of a space-join is the last character of its last piece. */
  lemma {:induction false} JoinEndsLikeLastPart(parts: seq<string>)
    requires |parts| >= 1 && parts[|parts| - 1] != []
    ensures var s := Join(parts, ' '); s != [] && s[|s| - 1] == parts[|parts| - 1][|parts[|parts| - 1]| - 1]
  {
    if |parts| > 1 {
      JoinEndsLikeLastPart(parts[1..]);
    }
  }

  /** The first character of a space-join is the first character of its first piece. */
  lemma JoinStartsLikeFirstPart(parts: seq<string>)
    requires |parts| >= 1 && parts[0] != []
    ensures var s := Join(parts, ' '); s != [] && s[0] == parts[0][0]
  {
  }

  /** The untrimmed user-list text is the space-join of "/users" and the names, plus one space. */
  lemma UserListText(order: seq<string>)
    ensures UserList(order) == Trim(Join(["/users"] + order, ' ') + " ")
  {
    ListedJoin("/users", order);
    assert "/users" + " " == "/users ";
  }

  /** For visible names the space-join of "/users" and the names starts and ends with a visible character. */
  lemma UserListJoinVisible(order: seq<string>)
    requires forall k :: 0 <= k < |order| ==> IsVisibleName(order[k])
    ensures var j := Join(["/users"] + order, ' '); j != [] && !IsTrimmable(j[0]) && !IsTrimmable(j[|j| - 1])
  {
    var parts := ["/users"] + order;
    if order != [] {
      assert parts[|parts| - 1] == order[|order| - 1];
    }
    JoinEndsLikeLastPart(parts);
    JoinStartsLikeFirstPart(parts);
  }

  /** For visible names the trimmed user-list line is exactly the space-join of "/users" and the names. */
  lemma UserListIsJoin(order: seq<string>)
    requires forall k :: 0 <= k < |order| ==> IsVisibleName(order[k])
    ensures UserList(order) == Join(["/users"] + order, ' ')
  {
    UserListText(order);
    UserListJoinVisible(order);
    TrimOneSpace(Join(["/users"] + order, ' '));
  }

  /**
   * The user-list line decodes: split on spaces it gives "/users" followed by
   * exactly the names, in the order they were visited.
   */
  lemma UserListSplits(order: seq<string>)
    requires forall k :: 0 <= k < |order| ==> IsVisibleName(order[k])
    ensures Split(UserList(order), ' ') == ["/users"] + order
  {
    var parts := ["/users"] + order;
    UserListIsJoin(order);
    forall k | 0 <= k < |parts| ensures ' ' !in parts[k] {
      if k > 0 {
        assert parts[k] == order[k - 1];
        assert forall i :: 0 <= i < |parts[k]| ==> !IsTrimmable(parts[k][i]);
      }
    }
    SplitJoin(parts, ' ');
  }

  /**
   * The handshake registers any non-blank line, spaces included, and the
   * space-separated encoding cannot carry such a name: the name "u v" reads
   * back as the two users "u" and "v".
   */
  lemma SpacedNameSplits(u: string, v: string)
    requires IsVisibleName(u) && IsVisibleName(v)
    ensures Split(UserList([u + " " + v]), ' ') == ["/users", u, v]
  {
    assert Listed([u + " " + v]) == Listed([u, v]) by {
      assert [u, v][1..] == [v] && [v][1..] == [];
    }
    UserListSplits([u, v]);
  }

  /** A name with a leading space reads back as an empty user followed by the rest of the name. */
  lemma LeadingSpaceNameSplits(v: string)
    requires IsVisibleName(v)
    ensures Split(UserList([" " + v]), ' ') == ["/users", "", v]
  {
    var parts := ["/users", "", v];
    var j := Join(parts, ' ');
    assert "/users " + Listed([" " + v]) == j + " " by {
      assert parts[1..] == ["", v] && ["", v][1..] == [v];
      assert Join(["", v], ' ') == [' '] + v;
      assert j == "/users" + [' '] + ([' '] + v);
    }
    JoinEndsLikeLastPart(parts);
    TrimOneSpace(j);
    assert ' ' !in v by {
      assert forall i :: 0 <= i < |v| ==> !IsTrimmable(v[i]);
    }
    SplitJoin(parts, ' ');
  }

  // ---------------------------------------------------------------------
  // Commands

  /** What one line read from a registered client asks for. */
  datatype Command =
    | Create(group: string)
    | Add(group: string, user: string)
    | Remove(group: string, user: string)
    | GroupMessage(group: string, text: string)
      /** Any other line: it is only echoed on the server console. */
    | Other
      /** A command word whose arguments are missing: the dispatch raises ArrayIndexOutOfBoundsException. */
    | Malformed

  /**
   * The dispatch of one line: the line is split at its first space, the first
   * token is compared case-insensitively with "/create", "/add" and
   * "/remove", then tested case-sensitively for the prefix "/group".
   */
  function Parse(message: string): (c: Command)
    ensures !c.Other? ==> message != [] && message[0] == '/'
  {
    var tokens := SplitOnce(message, ' ');
    Dispatch(tokens[0], tokens[1..])
  }

  /** The decision on the command word, given the rest of the line (`[]` when the line has no space). */
  function Dispatch(command: string, rest: seq<string>): Command
  {
    if EqualsIgnoreCase(command, "/create") then
      if rest == [] then Malformed else Create(rest[0])
    else if EqualsIgnoreCase(command, "/add") then
      if rest == [] then Malformed else Pair(Split(rest[0], ' '), false)
    else if EqualsIgnoreCase(command, "/remove") then
      if rest == [] then Malformed else Pair(Split(rest[0], ' '), true)
    else if StartsWith(command, "/group") then
      if rest == [] then Malformed
      else
        var params := SplitOnce(rest[0], ' ');
        if |params| < 2 then Malformed else GroupMessage(params[0], params[1])
    else Other
  }

  /** The first two parameters of `/add` (or of `/remove`); fewer than two is a fault. */
  function Pair(params: seq<string>, removing: bool): Command
  {
    if |params| < 2 then Malformed
    else if removing then Remove(params[0], params[1])
    else Add(params[0], params[1])
  }

  /** A token that the space-splitting of the dispatch keeps whole. */
  predicate IsWord(s: string) { ' ' !in s }

  /** A command whose canonical spelling `Format` the dispatch reads back. */
  predicate Expressible(c: Command)
  {
    match c
    case Create(_) => true
    case Add(g, u) => IsWord(g) && IsWord(u) && u != []
    case Remove(g, u) => IsWord(g) && IsWord(u) && u != []
    case GroupMessage(g, _) => IsWord(g)
    case Other => false
    case Malformed => false
  }

  /** The command word of a command, in its documented spelling. */
  function Keyword(c: Command): string
    requires Expressible(c)
  {
    match c
    case Create(_) => "/create"
    case Add(_, _) => "/add"
    case Remove(_, _) => "/remove"
    case GroupMessage(_, _) => "/group"
  }

  /** Everything after the command word: a space and the arguments separated by spaces. */
  function Arguments(c: Command): string
    requires Expressible(c)
  {
    match c
    case Create(g) => " " + g
    case Add(g, u) => " " + g + " " + u
    case Remove(g, u) => " " + g + " " + u
    case GroupMessage(g, t) => " " + g + " " + t
  }

  /** The line a client writes to issue `c`. */
  function Format(c: Command): string
    requires Expressible(c)
  {
    Keyword(c) + Arguments(c)
  }

  /** Text that starts with a space-free word and a space splits right there. */
  lemma SplitOnceAfterWord(w: string, rest: string)
    requires IsWord(w)
    ensures SplitOnce(w + " " + rest, ' ') == [w, rest]
  {
    var s := w + " " + rest;
    assert s[|w|] == ' ';
    assert forall j :: 0 <= j < |w| ==> s[j] == w[j];
    var i := IndexOf(s, ' ');
    assert i == |w|;
    assert s[..i] == w && s[i + 1..] == rest;
  }

  /** A word matching a command word up to case is space-free, as the command word is. */
  lemma MatchedWordIsWord(kw: string, word: string)
    requires IsWord(word) && EqualsIgnoreCase(kw, word)
    ensures IsWord(kw)
  {
    forall i | 0 <= i < |kw| ensures kw[i] != ' ' {
      assert CharEqualsIgnoreCase(kw[i], word[i]);
    }
  }

  /** A word that matches `a` up to case does not match `b` when the two differ in a letter. */
  lemma Mismatch(kw: string, a: string, b: string, i: nat)
    requires EqualsIgnoreCase(kw, a)
    requires i < |a| && i < |b| && 'a' <= a[i] <= 'z' && 'a' <= b[i] <= 'z' && a[i] != b[i]
    ensures !EqualsIgnoreCase(kw, b)
  {
    MatchLetter(kw[i], a[i]);
    MatchLetter(kw[i], b[i]);
  }

  /** `a b` with space-free `a` and non-empty space-free `b` splits into exactly those two words. */
  lemma SplitTwoWords(a: string, b: string)
    requires IsWord(a) && IsWord(b) && b != []
    ensures Split(a + " " + b, ' ') == [a, b]
  {
    assert a + " " + b == Join([a, b], ' ');
    SplitJoin([a, b], ' ');
  }

  /**
   * The dispatch reads back every expressible command, whatever the case of
   * its command word: `/CREATE`, `/Add` and `/remove` are the same commands.
   */
  lemma ParseAnyCase(c: Command, kw: string)
    requires Expressible(c) && !c.GroupMessage?
    requires EqualsIgnoreCase(kw, Keyword(c))
    ensures Parse(kw + Arguments(c)) == c
  {
    match c
    case Create(g) => ParseCreate(kw, g);
    case Add(g, u) => ParseAdd(kw, g, u);
    case Remove(g, u) => ParseRemove(kw, g, u);
  }

  lemma ParseCreate(kw: string, g: string)
    requires EqualsIgnoreCase(kw, "/create")
    ensures Parse(kw + Arguments(Create(g))) == Create(g)
  {
    MatchedWordIsWord(kw, "/create");
    assert kw + Arguments(Create(g)) == kw + " " + g;
    SplitOnceAfterWord(kw, g);
  }

  lemma ParseAdd(kw: string, g: string, u: string)
    requires EqualsIgnoreCase(kw, "/add")
    requires IsWord(g) && IsWord(u) && u != []
    ensures Parse(kw + Arguments(Add(g, u))) == Add(g, u)
  {
    MatchedWordIsWord(kw, "/add");
    assert kw + Arguments(Add(g, u)) == kw + " " + (g + " " + u);
    ParseTwoArguments(kw, g, u);
    DispatchAdd(kw, g + " " + u);
  }

  lemma ParseRemove(kw: string, g: string, u: string)
    requires EqualsIgnoreCase(kw, "/remove")
    requires IsWord(g) && IsWord(u) && u != []
    ensures Parse(kw + Arguments(Remove(g, u))) == Remove(g, u)
  {
    MatchedWordIsWord(kw, "/remove");
    assert kw + Arguments(Remove(g, u)) == kw + " " + (g + " " + u);
    ParseTwoArguments(kw, g, u);
    DispatchRemove(kw, g + " " + u);
  }

  /** A word, then two space-free words: the dispatch sees the word and the two words split apart. */
  lemma ParseTwoArguments(kw: string, g: string, u: string)
    requires IsWord(kw) && IsWord(g) && IsWord(u) && u != []
    ensures Parse(kw + " " + (g + " " + u)) == Dispatch(kw, [g + " " + u])
    ensures Split(g + " " + u, ' ') == [g, u]
  {
    SplitOnceAfterWord(kw, g + " " + u);
    SplitTwoWords(g, u);
  }

  /** A word matching "/add" up to case hands the rest of the line to `split(" ")`. */
  lemma DispatchAdd(kw: string, rest: string)
    requires EqualsIgnoreCase(kw, "/add")
    ensures Dispatch(kw, [rest]) == Pair(Split(rest, ' '), false)
  {
  }

  /** A word matching "/remove" up to case hands the rest of the line to `split(" ")`. */
  lemma DispatchRemove(kw: string, rest: string)
    requires EqualsIgnoreCase(kw, "/remove")
    ensures Dispatch(kw, [rest]) == Pair(Split(rest, ' '), true)
  {
    Mismatch(kw, "/remove", "/create", 1);
  }

  /**
   * Any space-free command word beginning with "/group" (case-sensitively)
   * carries a group message: the group is the next word, the text all the rest.
   */
  lemma ParseGroupPrefix(command: string, g: string, text: string)
    requires StartsWith(command, "/group") && IsWord(command) && IsWord(g)
    ensures Parse(command + " " + g + " " + text) == GroupMessage(g, text)
  {
    assert command[1] == "/group"[1];
    NotCreateOrRemove(command);
    DispatchGroup(command, g + " " + text);
    SplitOnceAfterWord(g, text);
    assert command + " " + g + " " + text == command + " " + (g + " " + text);
    SplitOnceAfterWord(command, g + " " + text);
  }

  /** A "/group…" word that is no other command word leaves the rest of the line to `split(" ", 2)`. */
  lemma DispatchGroup(command: string, rest: string)
    requires StartsWith(command, "/group")
    requires !EqualsIgnoreCase(command, "/create") && !EqualsIgnoreCase(command, "/remove")
    ensures var params := SplitOnce(rest, ' ');
      Dispatch(command, [rest]) == if |params| < 2 then Malformed else GroupMessage(params[0], params[1])
  {
    assert !EqualsIgnoreCase(command, "/add") by { assert |command| >= 6; }
  }

  /** A word whose second character is 'g' is neither "/create" nor "/remove" up to case. */
  lemma NotCreateOrRemove(command: string)
    requires |command| >= 2 && command[1] == 'g'
    ensures !EqualsIgnoreCase(command, "/create") && !EqualsIgnoreCase(command, "/remove")
  {
    MatchLetter(command[1], 'c');
    MatchLetter(command[1], 'r');
  }

  /** Parsing undoes formatting: every expressible command comes back unchanged. */
  lemma ParseFormat(c: Command)
    requires Expressible(c)
    ensures Parse(Format(c)) == c
  {
    if c.GroupMessage? {
      assert Format(c) == "/group" + " " + c.group + " " + c.text;
      ParseGroupPrefix("/group", c.group, c.text);
    } else {
      ParseAnyCase(c, Keyword(c));
    }
  }

  /** A line whose first character is not '/' is no command; "exit" is such a line. */
  lemma PlainLine(message: string)
    requires message == [] || message[0] != '/'
    ensures Parse(message) == Other
  {
    var command := SplitOnce(message, ' ')[0];
    if command != [] {
      assert command[0] == message[0];
      MatchNonLetter(command[0], '/');
    }
  }

  /** The case-sensitive prefix test sends "/GROUP …" and "/Group …" to the console, not to a group. */
  lemma GroupWordIsCaseSensitive(message: string)
    requires |message| >= 6 && message[1] == 'G'
    ensures !Parse(message).GroupMessage?
  {
    var command := SplitOnce(message, ' ')[0];
    if |command| >= 2 {
      assert command[1] == message[1];
    }
    assert !StartsWith(command, "/group");
  }

  /** A command word that every branch takes: one of the three keywords up to case, or any "/group…" word. */
  predicate IsCommandWord(w: string)
  {
    EqualsIgnoreCase(w, "/create") || EqualsIgnoreCase(w, "/add") || EqualsIgnoreCase(w, "/remove")
    || StartsWith(w, "/group")
  }

  /** A command word alone on its line has no arguments to index: the dispatch faults. */
  lemma NoArgument(kw: string)
    requires IsWord(kw) && IsCommandWord(kw)
    ensures Parse(kw) == Malformed
  {
    assert SplitOnce(kw, ' ') == [kw];
  }

  /** `/add g`, `/remove g` and `/group g` carry one argument where two are indexed: the dispatch faults. */
  lemma OneArgument(kw: string, g: string)
    requires IsWord(kw) && IsWord(g)
    requires EqualsIgnoreCase(kw, "/add") || EqualsIgnoreCase(kw, "/remove") || StartsWith(kw, "/group")
    ensures Parse(kw + " " + g) == Malformed
  {
    SplitOnceAfterWord(kw, g);
    assert SplitOnce(g, ' ') == [g];
    if EqualsIgnoreCase(kw, "/add") {
      DispatchAdd(kw, g);
    } else if EqualsIgnoreCase(kw, "/remove") {
      DispatchRemove(kw, g);
    } else {
      assert kw[1] == "/group"[1];
      NotCreateOrRemove(kw);
      DispatchGroup(kw, g);
    }
  }

  /** A first word that is no command word leaves the whole line to the console, whatever follows it. */
  lemma UnknownWord(w: string, rest: string)
    requires IsWord(w) && !IsCommandWord(w)
    ensures Parse(w) == Other
    ensures Parse(w + " " + rest) == Other
  {
    assert SplitOnce(w, ' ') == [w];
    SplitOnceAfterWord(w, rest);
  }

  // ---------------------------------------------------------------------
  // The session's read loop

  /** The groups the `/create` lines among `lines[1..n]` ask for (line 0 is the name). */
  function CreateNames(lines: seq<string>, n: nat): set<string>
    requires n <= |lines|
  {
    if n <= 1 then {}
    else
      var c := Parse(lines[n - 1]);
      CreateNames(lines, n - 1) + if c.Create? then {c.group} else {}
  }

  /** A group is in `CreateNames(lines, n)` exactly when one of `lines[1..n]` is a `/create` line for it. */
  lemma {:induction false} CreateNamesIff(lines: seq<string>, n: nat, g: string)
    requires n <= |lines|
    ensures g in CreateNames(lines, n) <==> exists j :: 1 <= j < n && Parse(lines[j]) == Create(g)
  {
    if n > 1 {
      CreateNamesIff(lines, n - 1, g);
    }
  }

  /** More lines can only ask for more groups. */
  lemma {:induction false} CreateNamesGrow(lines: seq<string>, m: nat, n: nat)
    requires m <= n <= |lines|
    ensures CreateNames(lines, m) <= CreateNames(lines, n)
    decreases n
  {
    if m < n {
      CreateNamesGrow(lines, m, n - 1);
    }
  }

  /** `equalsIgnoreCase("exit")`: the line after whose dispatch the loop stops. */
  predicate IsExit(message: string) { EqualsIgnoreCase(message, "exit") }

  /** What the dispatch of one line leaves the loop to do. */
  datatype Step = Continue | Stop | Fault

  /**
   * The dispatch runs first, so a malformed command faults before the exit
   * test; an exit line is never malformed, so every exit line stops the loop.
   */
  function StepOf(message: string): (step: Step)
    ensures step == Fault <==> Parse(message).Malformed?
    ensures step == Stop <==> IsExit(message)
  {
    if IsExit(message) then ExitIsPlain(message); Stop
    else if Parse(message).Malformed? then Fault
    else Continue
  }

  /** An exit line is not a command: it is dispatched as console text. */
  lemma ExitIsPlain(message: string)
    requires IsExit(message)
    ensures Parse(message) == Other
  {
    assert CharEqualsIgnoreCase(message[0], 'e');
    PlainLine(message);
  }

  /** The first line from index `i` on after which the loop stops, or `|lines|` when none does. */
  function StopAt(lines: seq<string>, i: nat): (k: nat)
    requires i <= |lines|
    ensures i <= k <= |lines|
    ensures k < |lines| ==> StepOf(lines[k]) != Continue
    ensures forall j :: i <= j < k ==> StepOf(lines[j]) == Continue
    decreases |lines| - i
  {
    if i == |lines| || StepOf(lines[i]) != Continue then i else StopAt(lines, i + 1)
  }

  /** How the input stream ends once every line has been read. */
  datatype StreamEnd = EndOfStream | ReadError

  /** What `readLine` gives: a line, null at end of stream, or an IOException. */
  datatype Read = Line(text: string) | Eof | Failed

  /** The result of the `i`-th `readLine` on a stream carrying `lines` and ending as `end`. */
  function ReadAt(lines: seq<string>, end: StreamEnd, i: nat): (r: Read)
    ensures r.Line? <==> i < |lines|
    ensures r.Line? ==> r.text == lines[i]
    ensures r.Failed? <==> i >= |lines| && end.ReadError?
  {
    if i < |lines| then Line(lines[i]) else if end == EndOfStream then Eof else Failed
  }

  /** How a session ends. */
  datatype Outcome =
      /** The first read gave null or a blank name: the session never registered. */
    | Unnamed
      /** The loop ended on an exit line or at end of stream, and the name was unregistered. */
    | Closed
      /** A malformed command ended the thread with an exception; the name stays registered. */
    | Crashed
      /** A read failed; the IOException is caught and the name, if registered, stays registered. */
    | ReadFailed

  /** The first line names the client: it is there and not blank. */
  predicate Registers(lines: seq<string>)
  {
    |lines| > 0 && Trim(lines[0]) != []
  }

  /** The outcome of a session reading `lines` and then meeting `end`. */
  function SessionOutcome(lines: seq<string>, end: StreamEnd): (r: Outcome)
    ensures r == Unnamed <==> !Registers(lines) && (|lines| > 0 || end == EndOfStream)
    ensures r == Crashed ==> Registers(lines) && exists k :: 1 <= k < |lines| && Parse(lines[k]).Malformed?
    ensures r == ReadFailed ==> end.ReadError?
  {
    if |lines| == 0 then (if end == EndOfStream then Unnamed else ReadFailed)
    else if Trim(lines[0]) == [] then Unnamed
    else
      var k := StopAt(lines, 1);
      if k < |lines| then (if StepOf(lines[k]) == Fault then Crashed else Closed)
      else if end == EndOfStream then Closed
      else ReadFailed
  }

  /**
   * A registered session is unregistered exactly when it closes: an exit
   * line, or the end of the stream before any malformed command or failed read.
   */
  lemma ClosedIff(lines: seq<string>, end: StreamEnd)
    requires Registers(lines)
    ensures SessionOutcome(lines, end) == Closed <==>
      (exists k :: 1 <= k < |lines| && IsExit(lines[k]) && forall j :: 1 <= j < k ==> StepOf(lines[j]) == Continue)
      || ((forall j :: 1 <= j < |lines| ==> StepOf(lines[j]) == Continue) && end == EndOfStream)
  {
    var k := StopAt(lines, 1);
    if k < |lines| && StepOf(lines[k]) == Stop {
      assert IsExit(lines[k]);
    }
    if exists k' :: 1 <= k' < |lines| && IsExit(lines[k']) && forall j :: 1 <= j < k' ==> StepOf(lines[j]) == Continue {
      var k' :| 1 <= k' < |lines| && IsExit(lines[k']) && forall j :: 1 <= j < k' ==> StepOf(lines[j]) == Continue;
      ExitIsPlain(lines[k']);
      assert k == k';
    }
  }
}
