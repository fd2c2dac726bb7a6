/** The command-line interface: names, numbering of a group's entries, and help. */
module Cli {

  import opened Common

  // ----- comparison of names

  /** No lower-case letter is left, and nothing but a lower-case letter has changed. */
  function Upper(c: char): (u: char)
    ensures !('a' <= u <= 'z')
    ensures u == c || ('a' <= c <= 'z' && u as int == c as int - 32)
  {
    if 'a' <= c <= 'z' then (c as int - 'a' as int + 'A' as int) as char else c
  }

  /** Equal, ignoring the case of ASCII letters, in the first n characters. */
  ghost predicate SameUpTo(a: seq<char>, b: seq<char>, n: nat) {
    n <= |a| && n <= |b| && forall i | 0 <= i < n :: Upper(a[i]) == Upper(b[i])
  }

  /** Comparing up to `size` characters stops at a difference before either buffer ends. */
  ghost predicate Readable(a: seq<char>, b: seq<char>, size: nat) {
    forall n: nat | n < size && SameUpTo(a, b, n) :: n < |a| && n < |b|
  }

  /** The buffers agree before position n and differ there, in the given direction. */
  ghost predicate FirstDifference(a: seq<char>, b: seq<char>, n: nat, sign: int) {
    SameUpTo(a, b, n) && n < |a| && n < |b| && Upper(a[n]) != Upper(b[n]) &&
    sign == if Upper(a[n]) < Upper(b[n]) then -1 else 1
  }

  method Memcmpi(source1: seq<char>, source2: seq<char>, size: nat) returns (ret: int)
    requires Readable(source1, source2, size)
    ensures ret == 0 <==>
      && size <= |source1| && size <= |source2|
      && forall i | 0 <= i < size ::
        var a, b := source1[i], source2[i];
        || a == b || ('a' <= a <= 'z' && a as int == b as int + 32) || ('a' <= b <= 'z' && b as int == a as int + 32)
    ensures ret == 0 <==> SameUpTo(source1, source2, size)
    ensures ret != 0 ==> exists n: nat | n < size :: FirstDifference(source1, source2, n, ret)
  {
    ret := 0;
    var index := 0;
    while index < size && ret == 0
      invariant index <= size
      invariant ret == 0 ==> SameUpTo(source1, source2, index)
      invariant ret != 0 ==> 0 < index && FirstDifference(source1, source2, index - 1, ret)
    {
      assert SameUpTo(source1, source2, index);
      var byte1, byte2 := source1[index], source2[index];
      if 'a' <= byte1 <= 'z' { byte1 := (byte1 as int - 32) as char; }
      if 'a' <= byte2 <= 'z' { byte2 := (byte2 as int - 32) as char; }
      if byte1 != byte2 {
        if byte1 < byte2 { ret := -1; } else { ret := 1; }
      }
      index := index + 1;
    }
  }

  /** The whole names agree, ignoring case. */
  ghost predicate SameName(a: CString, b: CString) {
    |a| == |b| && SameUpTo(a, b, |a|)
  }

  /** Character by character the names are equal, or one has the lower case of the other's letter. */
  lemma SameNameIff(a: CString, b: CString)
    ensures SameName(a, b) <==>
      && |a| == |b|
      && forall i | 0 <= i < |a| ::
        || a[i] == b[i] || ('a' <= a[i] <= 'z' && a[i] as int == b[i] as int + 32)
        || ('a' <= b[i] <= 'z' && b[i] as int == a[i] as int + 32)
  {
  }

  /** Comparing a name with its terminator against another name never reads past either
      terminator, and finds no difference exactly when the whole names agree. */
  lemma NameComparison(a: CString, b: CString)
    ensures Readable(a + [NUL], b + [NUL], |a| + 1)
    ensures SameUpTo(a + [NUL], b + [NUL], |a| + 1) <==> SameName(a, b)
  {
    var x, y := a + [NUL], b + [NUL];
    if |b| < |a| { assert Upper(x[|b|]) != Upper(y[|b|]) by { NotTerminator(a, |b|); } }
    if |a| < |b| { assert Upper(x[|a|]) != Upper(y[|a|]) by { NotTerminator(b, |a|); } }
    assert |a| == |b| ==> forall i | 0 <= i < |a| :: x[i] == a[i] && y[i] == b[i];
  }

  lemma NotTerminator(s: CString, i: nat)
    requires i < |s|
    ensures (s + [NUL])[i] == s[i] != NUL && Upper(s[i]) != Upper(NUL)
  {
    assert s[i] in s;
  }

  // ----- groups and their entries

  datatype Command = Command(name: CString, usage: string, description: string)

  datatype CommandGroup = CommandGroup(name: CString, commandCount: nat, commandList: Option<seq<Command>>)

  /** A node of the group tree; its subgroups are the linked list of the source. */
  datatype Group = Group(isRoot: bool, commandGroup: Option<CommandGroup>, subgroups: seq<Group>)

  const ROOT_COMMANDS: seq<Command> := [
    Command("Ver", "", "Display Build Info"),
    Command("Help", "[Command (optional)]", "Display Command list or usage for a command"),
    Command("Exit", "[Restart (1=Yes)]", "Exits the application."),
    Command("Reset", "\n", "reset the platform\n")]

  const COMMON_COMMANDS: seq<Command> := [
    Command("Ver", "", "Display Build Info"),
    Command("Help", "[Command (optional)]", "Display Command list or usage for a command"),
    Command("Up", "", "Exit command group (move to parent group)"),
    Command("Root", "", "Move to top-level group list"),
    Command("Reset", "\n", "reset the platform\n")]

  /** The count of a command group is the length of its list, and a missing list has none;
      every subgroup has a command group, whose name is displayed. */
  ghost predicate WellFormed(g: Group) {
    && (g.commandGroup.Some? ==>
          var cg := g.commandGroup.value;
          cg.commandCount == if cg.commandList.Some? then |cg.commandList.value| else 0)
    && forall h | h in g.subgroups :: h.commandGroup.Some? && WellFormed(h)
  }

  datatype Entry = CommandEntry(command: Command) | GroupEntry(group: Group)

  function Builtins(g: Group): seq<Command> {
    if g.isRoot then ROOT_COMMANDS else COMMON_COMMANDS
  }

  function OwnCommands(g: Group): seq<Command> {
    if g.commandGroup.Some? && g.commandGroup.value.commandList.Some?
    then g.commandGroup.value.commandList.value else []
  }

  /** The entry with each number: built-in commands, the group's commands, its subgroups. */
  function EntryAt(g: Group, k: nat): (e: Entry)
    requires k < Size(g)
  {
    var b, c := |Builtins(g)|, |OwnCommands(g)|;
    if k < b then CommandEntry(Builtins(g)[k])
    else if k < b + c then CommandEntry(OwnCommands(g)[k - b])
    else GroupEntry(g.subgroups[k - b - c])
  }

  function Size(g: Group): nat {
    |Builtins(g)| + |OwnCommands(g)| + |g.subgroups|
  }

  /** What has a number: exactly the built-in commands, the group's own, and its subgroups. */
  lemma EntriesAre(g: Group, e: Entry)
    ensures (exists k | 0 <= k < Size(g) :: EntryAt(g, k) == e) <==>
      match e
      case CommandEntry(c) => c in Builtins(g) || c in OwnCommands(g)
      case GroupEntry(h) => h in g.subgroups
  {
    var b, own := |Builtins(g)|, |OwnCommands(g)|;
    if e.CommandEntry? && e.command in Builtins(g) {
      var i :| 0 <= i < b && Builtins(g)[i] == e.command;
      assert EntryAt(g, i) == e;
    } else if e.CommandEntry? && e.command in OwnCommands(g) {
      var i :| 0 <= i < own && OwnCommands(g)[i] == e.command;
      assert EntryAt(g, b + i) == e;
    } else if e.GroupEntry? && e.group in g.subgroups {
      var i :| 0 <= i < |g.subgroups| && g.subgroups[i] == e.group;
      assert EntryAt(g, b + own + i) == e;
    }
  }

  function NameOf(e: Entry): CString {
    match e
    case CommandEntry(c) => c.name
    case GroupEntry(g) => if g.commandGroup.Some? then g.commandGroup.value.name else ""
  }

  // ----- the displayed list

  datatype Line = Line(number: nat, entry: Entry)

  method DisplayCommandList(g: Group) returns (lines: seq<Line>)
    requires WellFormed(g)
    ensures |lines| == Size(g)
    ensures forall k | 0 <= k < |lines| :: lines[k] == Line(k, EntryAt(g, k))
  {
    lines := [];
    var commandIndex := 0;
    var commandList := if g.isRoot then ROOT_COMMANDS else COMMON_COMMANDS;
    for index := 0 to |commandList|
      invariant |lines| == commandIndex == index
      invariant forall k | 0 <= k < |lines| :: lines[k] == Line(k, EntryAt(g, k))
    {
      lines := lines + [Line(commandIndex, CommandEntry(commandList[index]))];
      commandIndex := commandIndex + 1;
    }
    if g.commandGroup.Some? && g.commandGroup.value.commandList.Some? {
      for index := 0 to g.commandGroup.value.commandCount
        invariant |lines| == commandIndex == |Builtins(g)| + index
        invariant forall k | 0 <= k < |lines| :: lines[k] == Line(k, EntryAt(g, k))
      {
        lines := lines + [Line(commandIndex, CommandEntry(g.commandGroup.value.commandList.value[index]))];
        commandIndex := commandIndex + 1;
      }
    }
    for index := 0 to |g.subgroups|
      invariant |lines| == commandIndex == |Builtins(g)| + |OwnCommands(g)| + index
      invariant forall k | 0 <= k < |lines| :: lines[k] == Line(k, EntryAt(g, k))
    {
      lines := lines + [Line(commandIndex, GroupEntry(g.subgroups[index]))];
      commandIndex := commandIndex + 1;
    }
  }

  // ----- lookup

  datatype Parameter = Parameter(stringValue: CString, integerValue: int, integerIsValid: bool)

  /** The number of the entry a parameter stands for: the integer itself, or the least number
      whose entry has the name. */
  ghost predicate Resolves(g: Group, p: Parameter, found: Option<nat>) {
    if p.integerIsValid then
      found == if 0 <= p.integerValue < Size(g) then Some(p.integerValue) else None
    else
      match found
      case Some(k) => k < Size(g) && SameName(p.stringValue, NameOf(EntryAt(g, k))) && Unmatched(g, p, k)
      case None => Unmatched(g, p, Size(g))
  }

  /** No entry numbered below n has the name. */
  ghost predicate Unmatched(g: Group, p: Parameter, n: nat) {
    n <= Size(g) && forall k | 0 <= k < n :: !SameName(p.stringValue, NameOf(EntryAt(g, k)))
  }

  lemma ResolvesUnique(g: Group, p: Parameter, m: Option<nat>, n: Option<nat>)
    requires Resolves(g, p, m) && Resolves(g, p, n)
    ensures m == n
  {
  }

  /** The entry's number is determined, so it can be named. */
  ghost function Number(g: Group, p: Parameter): (found: Option<nat>)
    ensures Resolves(g, p, found) && (found.Some? ==> found.value < Size(g))
  {
    if p.integerIsValid then
      if 0 <= p.integerValue < Size(g) then Some(p.integerValue) else None
    else
      FirstMatch(g, p, 0)
  }

  ghost function FirstMatch(g: Group, p: Parameter, n: nat): (found: Option<nat>)
    requires Unmatched(g, p, n) && !p.integerIsValid
    ensures Resolves(g, p, found)
    decreases Size(g) - n
  {
    if n == Size(g) then None
    else if SameName(p.stringValue, NameOf(EntryAt(g, n))) then Some(n)
    else FirstMatch(g, p, n + 1)
  }

  /** No two built-in names agree, so each, in whatever case of its letters, is found under its own
      number before any other entry. */
  lemma BuiltinFound(g: Group, name: CString, k: nat)
    requires k < |Builtins(g)| && SameName(name, Builtins(g)[k].name)
    ensures Number(g, Parameter(name, 0, false)) == Some(k)
  {
    forall i | 0 <= i < k
      ensures !SameName(name, Builtins(g)[i].name)
    {
      BuiltinsDiffer(g, i, k);
    }
    var p := Parameter(name, 0, false);
    hide SameName, Builtins;
    ResolvesUnique(g, p, Some(k), Number(g, p));
  }

  lemma BuiltinsDiffer(g: Group, i: nat, k: nat)
    requires i < k < |Builtins(g)|
    ensures
      var a, b := Builtins(g)[i].name, Builtins(g)[k].name;
      |a| != |b| || exists j | 0 <= j < |a| :: Upper(a[j]) != Upper(b[j])
  {
    var a, b := Builtins(g)[i].name, Builtins(g)[k].name;
    if |a| == |b| { assert Upper(a[0]) != Upper(b[0]); }
  }

  lemma HelpFound(g: Group)
    ensures Number(g, Parameter("help", 0, false)) == Some(1)
  {
    assert Builtins(g)[1].name == "Help";
    BuiltinFound(g, "help", 1);
  }

  ghost function EntryOf(g: Group, number: Option<nat>): Option<Entry>
    requires number.Some? ==> number.value < Size(g)
  {
    if number.Some? then Some(EntryAt(g, number.value)) else None
  }

  /** What a lookup leaves in the parameter: the number of the entry, if there is one. */
  function Numbered(p: Parameter, found: Option<nat>): Parameter {
    if found.Some? then p.(integerValue := found.value) else p
  }

  /** The search of one list of commands. */
  method FindInCommands(name: CString, commands: seq<Command>, count: nat, start: nat)
      returns (found: bool, index: nat, commandIndex: nat)
    requires count <= |commands|
    ensures commandIndex == start + index
    ensures found ==> index < count && SameName(name, commands[index].name)
    ensures !found ==> index == count
    ensures forall k | 0 <= k < index :: !SameName(name, commands[k].name)
  {
    found, index, commandIndex := false, 0, start;
    while index < count && !found
      invariant index <= count && commandIndex == start + index
      invariant found ==> index < count && SameName(name, commands[index].name)
      invariant forall k | 0 <= k < index :: !SameName(name, commands[k].name)
      decreases count - index, !found
    {
      NameComparison(name, commands[index].name);
      var ret := Memcmpi(name + [NUL], commands[index].name + [NUL], |name| + 1);
      if ret == 0 {
        found := true;
      } else {
        index := index + 1;
        commandIndex := commandIndex + 1;
      }
    }
  }

  /** The search of the subgroups. */
  method FindInSubgroups(name: CString, groups: seq<Group>, start: nat)
      returns (found: bool, index: nat, commandIndex: nat)
    requires forall h | h in groups :: h.commandGroup.Some?
    ensures commandIndex == start + index
    ensures found ==> index < |groups| && SameName(name, NameOf(GroupEntry(groups[index])))
    ensures !found ==> index == |groups|
    ensures forall k | 0 <= k < index :: !SameName(name, NameOf(GroupEntry(groups[k])))
  {
    found, index, commandIndex := false, 0, start;
    while index < |groups| && !found
      invariant index <= |groups| && commandIndex == start + index
      invariant found ==> index < |groups| && SameName(name, NameOf(GroupEntry(groups[index])))
      invariant forall k | 0 <= k < index :: !SameName(name, NameOf(GroupEntry(groups[k])))
      decreases |groups| - index, !found
    {
      assert groups[index] in groups;
      var groupString := groups[index].commandGroup.value.name;
      NameComparison(name, groupString);
      var ret := Memcmpi(name + [NUL], groupString + [NUL], |name| + 1);
      if ret == 0 {
        found := true;
      } else {
        index := index + 1;
        commandIndex := commandIndex + 1;
      }
    }
  }

  /** The lists as the code selects them. */
  lemma ListsAre(g: Group)
    ensures Builtins(g) == if g.isRoot then ROOT_COMMANDS else COMMON_COMMANDS
    ensures OwnCommands(g) == if g.commandGroup.Some? && g.commandGroup.value.commandList.Some?
                              then g.commandGroup.value.commandList.value else []
  {
  }

  /** A stretch of a list of commands passed over, and the entry where the search stands. */
  lemma CommandsUnmatched(g: Group, p: Parameter, at: nat, commands: seq<Command>, n: nat)
    requires Unmatched(g, p, at) && n <= |commands|
    requires (at == 0 && commands == Builtins(g)) || (at == |Builtins(g)| && commands == OwnCommands(g))
    requires forall k | 0 <= k < n :: !SameName(p.stringValue, commands[k].name)
    ensures Unmatched(g, p, at + n)
    ensures n < |commands| ==> EntryAt(g, at + n) == CommandEntry(commands[n])
    ensures n < |commands| ==> NameOf(EntryAt(g, at + n)) == commands[n].name
  {
    hide SameName, Builtins, OwnCommands;
    assert forall k | at <= k < at + n :: EntryAt(g, k) == CommandEntry(commands[k - at]);
  }

  lemma GroupsUnmatched(g: Group, p: Parameter, at: nat, n: nat)
    requires Unmatched(g, p, at) && at == |Builtins(g)| + |OwnCommands(g)| && n <= |g.subgroups|
    requires forall k | 0 <= k < n :: !SameName(p.stringValue, NameOf(GroupEntry(g.subgroups[k])))
    ensures Unmatched(g, p, at + n)
    ensures n < |g.subgroups| ==> EntryAt(g, at + n) == GroupEntry(g.subgroups[n])
  {
    hide SameName, Builtins, OwnCommands, NameOf;
    assert forall k | at <= k < at + n :: EntryAt(g, k) == GroupEntry(g.subgroups[k - at]);
  }

  method FindByName(g: Group, p: Parameter) returns (found: Option<Entry>, p': Parameter)
    requires WellFormed(g) && !p.integerIsValid
    ensures found == EntryOf(g, Number(g, p)) && p' == Numbered(p, Number(g, p))
  {
    hide SameName, EntryAt, NameOf, Builtins, OwnCommands;
    ListsAre(g);
    var commandList := if g.isRoot then ROOT_COMMANDS else COMMON_COMMANDS;
    var b := |commandList|;
    var hit, index, commandIndex := FindInCommands(p.stringValue, commandList, b, 0);
    CommandsUnmatched(g, p, 0, commandList, index);
    if hit {
      ResolvesUnique(g, p, Some(index), Number(g, p));
      return Some(CommandEntry(commandList[index])), p.(integerValue := commandIndex);
    }
    if g.commandGroup.Some? && g.commandGroup.value.commandList.Some? {
      var own := g.commandGroup.value.commandList.value;
      hit, index, commandIndex := FindInCommands(p.stringValue, own, g.commandGroup.value.commandCount, commandIndex);
      CommandsUnmatched(g, p, b, own, index);
      if hit {
        ResolvesUnique(g, p, Some(commandIndex), Number(g, p));
        return Some(CommandEntry(own[index])), p.(integerValue := commandIndex);
      }
    }
    var c := b + |OwnCommands(g)|;
    assert commandIndex == c && Unmatched(g, p, c);
    hit, index, commandIndex := FindInSubgroups(p.stringValue, g.subgroups, commandIndex);
    GroupsUnmatched(g, p, c, index);
    if hit {
      ResolvesUnique(g, p, Some(commandIndex), Number(g, p));
      return Some(GroupEntry(g.subgroups[index])), p.(integerValue := commandIndex);
    }
    ResolvesUnique(g, p, None, Number(g, p));
    return None, p;
  }

  method FindByNumber(g: Group, p: Parameter) returns (found: Option<Entry>)
    requires WellFormed(g) && p.integerIsValid
    ensures found == if 0 <= p.integerValue < Size(g) then Some(EntryAt(g, p.integerValue)) else None
  {
    if p.integerValue < 0 { return None; }
    var commandList := if g.isRoot then ROOT_COMMANDS else COMMON_COMMANDS;
    var commandIndex := p.integerValue;
    if commandIndex < |commandList| { return Some(CommandEntry(commandList[commandIndex])); }
    commandIndex := commandIndex - |commandList|;
    if g.commandGroup.Some? && commandIndex < g.commandGroup.value.commandCount {
      return Some(CommandEntry(g.commandGroup.value.commandList.value[commandIndex]));
    }
    if g.commandGroup.Some? { commandIndex := commandIndex - g.commandGroup.value.commandCount; }
    var index := 0;
    while index < |g.subgroups| && commandIndex != 0
      invariant 0 <= index <= |g.subgroups| && commandIndex >= 0
      invariant index + commandIndex == p.integerValue - |Builtins(g)| - |OwnCommands(g)|
      decreases |g.subgroups| - index
    {
      index := index + 1;
      commandIndex := commandIndex - 1;
    }
    return if index < |g.subgroups| then Some(GroupEntry(g.subgroups[index])) else None;
  }

  /** Find_Command: the entry a parameter stands for, its number left in the parameter. */
  method FindCommand(g: Group, parameters: array<Parameter>, at: nat)
      returns (found: Option<Entry>)
    requires WellFormed(g) && at < parameters.Length
    modifies parameters
    ensures
      var number := Number(g, old(parameters[at]));
      && found == EntryOf(g, number)
      && parameters[..] == old(parameters[..])[at := Numbered(old(parameters[at]), number)]
  {
    if parameters[at].integerIsValid {
      found := FindByNumber(g, parameters[at]);
      assert parameters[..] == parameters[..][at := parameters[at]];
    } else {
      var p;
      found, p := FindByName(g, parameters[at]);
      parameters[at] := p;
    }
  }

  /** Display then lookup: every displayed number, given back as an integer, finds the entry
      displayed beside it. */
  method FindDisplayed(g: Group, k: nat) returns (line: Line, found: Option<Entry>)
    requires WellFormed(g) && k < Size(g)
    ensures line == Line(k, EntryAt(g, k)) && found == Some(line.entry)
  {
    var lines := DisplayCommandList(g);
    line := lines[k];
    var parameters := new Parameter[1](_ => Parameter("", line.number, true));
    found := FindCommand(g, parameters, 0);
  }

  // ----- help along a path of parameters

  /** The whole path leads somewhere: through subgroups to a group or, at its end, a command. */
  ghost predicate Path(g: Group, ps: seq<Parameter>)
    decreases |ps|
  {
    ps == [] ||
    var number := Number(g, ps[0]);
    number.Some? &&
    match EntryAt(g, number.value)
    case GroupEntry(h) => Path(h, ps[1..])
    case CommandEntry(_) => |ps| == 1
  }

  /** The result of the help walk. */
  ghost function Depth(g: Group, ps: seq<Parameter>): nat
    decreases |ps|
  {
    if ps == [] then 0
    else
      var number := Number(g, ps[0]);
      if number.None? then 1
      else
        match EntryAt(g, number.value)
        case GroupEntry(h) => var d := Depth(h, ps[1..]); if d > 0 then d + 1 else 0
        case CommandEntry(_) => if |ps| == 1 then 0 else 2
  }

  /** The result is zero exactly when the whole path leads somewhere; otherwise it is one more
      than the length of the longest beginning of the path that does, so it is no more than the
      number of parameters. */
  lemma {:induction false} DepthIsLongestPrefix(g: Group, ps: seq<Parameter>)
    ensures Depth(g, ps) <= |ps|
    ensures Depth(g, ps) == 0 <==> Path(g, ps)
    ensures forall k | 0 <= k <= |ps| :: Path(g, ps[..k]) <==> Depth(g, ps) == 0 || k < Depth(g, ps)
    decreases |ps|
  {
    if ps != [] {
      var number := Number(g, ps[0]);
      var rest := ps[1..];
      if number.Some? && EntryAt(g, number.value).GroupEntry? {
        DepthIsLongestPrefix(EntryAt(g, number.value).group, rest);
      }
      forall k | 0 <= k <= |ps|
        ensures Path(g, ps[..k]) <==> Depth(g, ps) == 0 || k < Depth(g, ps)
      {
        if k > 0 { assert ps[..k][0] == ps[0] && ps[..k][1..] == rest[..k - 1]; }
      }
    }
    assert ps[..|ps|] == ps;
  }

  datatype Shown = Nothing | Listing(lines: seq<Line>) | Usage(number: int, command: Command)

  /** What the walk shows: at the end of a good path the list of the group reached, or the usage
      of the command reached under the number it is listed with. */
  ghost function Help(g: Group, ps: seq<Parameter>): Shown
    decreases |ps|
  {
    if ps == [] then Listing(seq(Size(g), k requires 0 <= k < Size(g) => Line(k, EntryAt(g, k))))
    else
      var number := Number(g, ps[0]);
      if number.None? then Nothing
      else
        match EntryAt(g, number.value)
        case GroupEntry(h) => Help(h, ps[1..])
        case CommandEntry(c) => if |ps| == 1 then Usage(number.value, c) else Nothing
  }

  lemma {:induction false} HelpShowsIffPath(g: Group, ps: seq<Parameter>)
    ensures Help(g, ps) != Nothing <==> Path(g, ps)
    decreases |ps|
  {
    if ps != [] {
      var number := Number(g, ps[0]);
      if number.Some? && EntryAt(g, number.value).GroupEntry? {
        HelpShowsIffPath(EntryAt(g, number.value).group, ps[1..]);
      }
    }
  }

  /** What is listed can be asked for: one more parameter, a number, leads somewhere exactly when a
      line of the listing has it, and then shows what that line stands for. */
  lemma {:induction false} HelpFollowsListing(g: Group, ps: seq<Parameter>, n: nat)
    requires Help(g, ps).Listing?
    ensures
      var lines, q := Help(g, ps).lines, Parameter("", n, true);
      && (n < |lines| <==> Path(g, ps + [q]))
      && (n < |lines| ==>
            && lines[n].number == n
            && Help(g, ps + [q]) == match lines[n].entry
                                    case CommandEntry(c) => Usage(n, c)
                                    case GroupEntry(h) => Help(h, []))
    decreases |ps|
  {
    var q := Parameter("", n, true);
    if ps == [] {
      assert ps + [q] == [q] && [q][1..] == [];
    } else {
      assert (ps + [q])[0] == ps[0] && (ps + [q])[1..] == ps[1..] + [q];
      var number := Number(g, ps[0]);
      if EntryAt(g, number.value).GroupEntry? {
        HelpFollowsListing(EntryAt(g, number.value).group, ps[1..], n);
      }
    }
  }

  /** The same by name: the parameter shows what the first line with that name stands for, and
      leads nowhere where no line has it. */
  lemma {:induction false} HelpByName(g: Group, ps: seq<Parameter>, q: Parameter, n: nat)
    requires Help(g, ps).Listing? && !q.integerIsValid && n <= |Help(g, ps).lines|
    requires forall k | 0 <= k < n :: !SameName(q.stringValue, NameOf(Help(g, ps).lines[k].entry))
    requires n < |Help(g, ps).lines| ==> SameName(q.stringValue, NameOf(Help(g, ps).lines[n].entry))
    ensures n < |Help(g, ps).lines| <==> Path(g, ps + [q])
    ensures n < |Help(g, ps).lines| ==>
      Help(g, ps + [q]) == match Help(g, ps).lines[n].entry
                           case CommandEntry(c) => Usage(n, c)
                           case GroupEntry(h) => Help(h, [])
    decreases |ps|
  {
    hide SameName, NameOf;
    if ps == [] {
      assert ps + [q] == [q] && [q][1..] == [];
      assert forall k | 0 <= k < Size(g) :: Help(g, ps).lines[k].entry == EntryAt(g, k);
      ResolvesUnique(g, q, if n < Size(g) then Some(n) else None, Number(g, q));
    } else {
      assert (ps + [q])[0] == ps[0] && (ps + [q])[1..] == ps[1..] + [q];
      HelpByName(EntryAt(g, Number(g, ps[0]).value).group, ps[1..], q, n);
    }
  }

  /** Behind a command there is nothing: one parameter too many is the first bad one. */
  lemma {:induction false} NothingBehindCommand(g: Group, ps: seq<Parameter>, q: Parameter)
    requires Help(g, ps).Usage?
    ensures !Path(g, ps + [q]) && Depth(g, ps + [q]) == |ps| + 1
    decreases |ps|
  {
    var number := Number(g, ps[0]);
    assert (ps + [q])[0] == ps[0] && (ps + [q])[1..] == ps[1..] + [q];
    if EntryAt(g, number.value).GroupEntry? {
      NothingBehindCommand(EntryAt(g, number.value).group, ps[1..], q);
    }
  }

  method DisplayHelp(g: Group, count: nat, parameters: array<Parameter>, start: nat) returns (ret: nat, shown: Shown)
    requires WellFormed(g) && start + count <= parameters.Length
    modifies parameters
    ensures ret == Depth(g, old(parameters[start..start + count]))
    ensures shown == Help(g, old(parameters[start..start + count]))
    ensures forall i | 0 <= i < parameters.Length :: parameters[i].stringValue == old(parameters[i].stringValue)
    decreases count
  {
    hide Resolves, EntryAt, Unmatched, WellFormed, Size;
    ghost var ps := parameters[start..start + count];
    shown := Nothing;
    if count >= 1 {
      var found := FindCommand(g, parameters, start);
      assert forall i | 0 <= i < parameters.Length :: parameters[i] == parameters[..][i];
      if found.Some? {
        if found.value.GroupEntry? {
          SubgroupWellFormed(g, Number(g, ps[0]).value);
          assert parameters[start + 1..start + count] == ps[1..];
          ret, shown := DisplayHelp(found.value.group, count - 1, parameters, start + 1);
          if ret > 0 { ret := ret + 1; }
        } else {
          if count == 1 {
            shown := Usage(parameters[start].integerValue, found.value.command);
            ret := 0;
          } else {
            ret := 2;
          }
        }
      } else {
        ret := 1;
      }
    } else {
      var lines := DisplayCommandList(g);
      shown := Listing(lines);
      ret := 0;
    }
  }

  lemma SubgroupWellFormed(g: Group, k: nat)
    requires WellFormed(g) && k < Size(g)
    ensures EntryAt(g, k).GroupEntry? ==> WellFormed(EntryAt(g, k).group)
  {
  }

  datatype Status = Success | UsageError(message: seq<CString>)

  /** The error loop. */
  method ErrorMessage(parameters: array<Parameter>, result: nat) returns (message: seq<CString>)
    requires 0 < result <= parameters.Length
    ensures |message| == result
    ensures forall i | 0 <= i < result :: message[i] == parameters[i].stringValue
  {
    message := [parameters[0].stringValue];
    for index := 1 to result
      invariant |message| == index
      invariant forall i | 0 <= i < index :: message[i] == parameters[i].stringValue
    {
      message := message + [parameters[index].stringValue];
    }
  }

  /** The part of Command_Help under its mutex: the error loop names the parameters up to the
      first bad one and never leaves the list. */
  method CommandHelp(g: Group, count: nat, parameters: array<Parameter>) returns (status: Status, shown: Shown)
    requires WellFormed(g) && count <= parameters.Length
    modifies parameters
    ensures status == Success <==> Path(g, old(parameters[..count]))
    ensures status.UsageError? ==>
      var n := |status.message|;
      && 0 < n <= count
      && (forall i | 0 <= i < n :: status.message[i] == old(parameters[i].stringValue))
      && Path(g, old(parameters[..n - 1])) && !Path(g, old(parameters[..n]))
    ensures shown == Help(g, old(parameters[..count]))
  {
    hide *;
    ghost var ps := parameters[..count];
    DepthIsLongestPrefix(g, ps);
    var result;
    result, shown := DisplayHelp(g, count, parameters, 0);
    assert parameters[0..0 + count] == parameters[..count];
    if result > 0 {
      var message := ErrorMessage(parameters, result);
      status := UsageError(message);
      assert ps[..result - 1] == old(parameters[..result - 1]) && ps[..result] == old(parameters[..result]);
    } else {
      status := Success;
    }
  }
}
