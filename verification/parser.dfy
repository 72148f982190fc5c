/** `CommandsParser` (main.cpp:85-163): the command registry. It owns the
    vector `commands_` and the flag `commands_is_sorted`, both updated in
    place, so it is a class here. `register_commands` (main.cpp:211-217)
    builds the registry the program uses. */
module Parser {
  import opened Common
  import opened LexOrder
  import opened Strings
  import opened Commands
  import opened Sorting
  import opened Matcher

  /** `n` blanks. */
  function Spaces(n: nat): string
  {
    seq(n, _ => ' ')
  }

  /** `max_cmd_len` of `print_help`: the length of the longest merged name,
      computed as the running maximum of the first loop. */
  function NameWidth(cmds: seq<Command>): nat
    requires forall i :: 0 <= i < |cmds| ==> |cmds[i].text| > 0
  {
    if |cmds| == 0 then 0
    else
      var w0 := NameWidth(cmds[..|cmds| - 1]);
      var n := |Joined(cmds[|cmds| - 1].text)|;
      if w0 < n then n else w0
  }

  /** The running maximum is the maximum: no merged name is longer, and
      some merged name is exactly that long (zero when there are none). */
  lemma {:induction false} NameWidthIsMax(cmds: seq<Command>)
    requires forall i :: 0 <= i < |cmds| ==> |cmds[i].text| > 0
    ensures forall i :: 0 <= i < |cmds| ==> |Joined(cmds[i].text)| <= NameWidth(cmds)
    ensures |cmds| > 0 ==> exists i :: 0 <= i < |cmds| && |Joined(cmds[i].text)| == NameWidth(cmds)
    ensures |cmds| == 0 ==> NameWidth(cmds) == 0
  {
    if |cmds| > 0 {
      var init := cmds[..|cmds| - 1];
      assert forall i :: 0 <= i < |init| ==> init[i] == cmds[i];
      NameWidthIsMax(init);
      if |init| > 0 && NameWidth(init) >= |Joined(cmds[|cmds| - 1].text)| {
        var i :| 0 <= i < |init| && |Joined(init[i].text)| == NameWidth(init);
        assert |Joined(cmds[i].text)| == NameWidth(cmds);
      }
    }
  }

  /** One row of the command table: the name, blanks up to `width`, a gap of
      four blanks, the help text. */
  function HelpLine(name: string, width: nat, help: string): string
    requires |name| <= width
  {
    name + Spaces(width - |name|) + "    " + help
  }

  /** The command table `print_help` writes after its "commands:" line, one
      row per command in the current order of `commands_`. */
  function HelpTable(cmds: seq<Command>): seq<string>
    requires forall i :: 0 <= i < |cmds| ==> |cmds[i].text| > 0
  {
    NameWidthIsMax(cmds);
    var w := NameWidth(cmds);
    seq(|cmds|, i requires 0 <= i < |cmds| => HelpLine(Joined(cmds[i].text), w, cmds[i].help))
  }

  /** Every row starts with the command's merged name, is blank from there to
      column `NameWidth + 4`, and has the help text from that column on: all
      help texts start in the same column, four past the longest name. */
  lemma HelpTableColumns(cmds: seq<Command>, i: nat)
    requires forall k :: 0 <= k < |cmds| ==> |cmds[k].text| > 0
    requires i < |cmds|
    ensures var line, name, w := HelpTable(cmds)[i], Joined(cmds[i].text), NameWidth(cmds);
      && |name| <= w
      && |line| == w + 4 + |cmds[i].help|
      && line[..|name|] == name
      && (forall k :: |name| <= k < w + 4 ==> line[k] == ' ')
      && line[w + 4..] == cmds[i].help
  {

  }

  /** The registry `register_commands` builds, in registration order. */
  function BuiltinCommands(): seq<Command>
  {
    [ Command(OptUserCreate, ["user", "create"], "create a new user"),
      Command(OptUserDelete, ["user", "delete"], "delete a user"),
      Command(OptUserInfo, ["user", "info"], "get user info") ]
  }

  class CommandsParser {
    var commands: seq<Command>
    var isSorted: bool

    /** Every stored text came out of `split` and was accepted by the Command
        constructor; the flag is set only while the vector is sorted. */
    ghost predicate Valid()
      reads this
    {
      && (forall i :: 0 <= i < |commands| ==> IsCommandText(commands[i].text))
      && (isSorted ==> SortedByText(commands))
    }

    constructor ()
      ensures Valid() && commands == [] && !isSorted
    {
      commands := [];
      isSorted := false;
    }

    /** `register_command` (main.cpp:95-98): split the text, construct the
        command (which throws on an empty token list, before anything is
        stored), append it and clear the sorted flag. */
    method RegisterCommand(id: ECommand, text: string, help: string) returns (outcome: Outcome)
      requires Valid()
      modifies this
      ensures Valid()
      ensures outcome.Fail? <==> Tokens(text) == []
      ensures outcome.Fail? ==> outcome.error == LogicError("command-text is empty")
      ensures outcome.Fail? ==> commands == old(commands) && isSorted == old(isSorted)
      ensures outcome.Pass? ==> commands == old(commands) + [Command(id, Tokens(text), help)] && !isSorted
    {
      var tokens := Split(text);
      var made := MakeCommand(id, tokens, help);
      if made.Failure? {
        return Fail(made.error);
      }
      TokensAreWords(text);
      commands := commands + [made.value];
      isSorted := false;
      outcome := Pass;
    }

    /** `sort_` (main.cpp:154-162): sort only when the flag is clear, then set
        it. A second call leaves everything as it is. */
    method SortCommands()
      requires Valid()
      modifies this
      ensures Valid() && isSorted
      ensures multiset(commands) == multiset(old(commands))
      ensures old(isSorted) ==> commands == old(commands)
    {
      if !isSorted {
        var sorted := SortByText(commands);
        forall i | 0 <= i < |sorted| ensures IsCommandText(sorted[i].text) {
          assert sorted[i] in multiset(commands);
        }
        commands := sorted;
        isSorted := true;
      }
    }

    /** `recognize_command` (main.cpp:100-124) on `argv[0..argc]`: sort, then
        narrow the range token by token. The answer is the one the
        specification gives for the registry as it was before sorting, so
        registration order never shows. */
    method RecognizeCommand(argv: seq<string>) returns (r: Option<Command>)
      requires Valid() && |argv| >= 1
      modifies this
      ensures Valid() && isSorted && multiset(commands) == multiset(old(commands))
      ensures r == Recognize(old(commands), argv[1..])
      ensures old(isSorted) ==> commands == old(commands)
      ensures r.Some? ==> r.value in old(commands)
    {
      ghost var before := commands;
      SortCommands();
      r := FindCommand(commands, argv[1..]);
      RecognizeOrderIndependent(commands, before, argv[1..]);
      if r.Some? {
        var k := RecognizeSound(commands, argv[1..]);
        SingleCandidate(commands, argv[1..][..k], r.value);
        assert r.value in multiset(before);
      }
    }

    /** `print_help` (main.cpp:126-147) with its output returned as lines:
        a first pass collects merged names and help texts and the widest
        name, a second pass pads each name and appends its help. */
    method PrintHelp() returns (lines: seq<string>)
      requires Valid()
      ensures lines == ["commands:"] + HelpTable(commands)
    {
      var cmds := commands;
      assert forall i :: 0 <= i < |cmds| ==> |cmds[i].text| > 0;
      var names, helps, width := NameColumn(cmds);
      var rows := TableLines(cmds, names, helps, width);
      lines := ["commands:"] + rows;
    }
  }

  /** The first loop of `print_help` (main.cpp:129-136): every merged name,
      every help text, and the running maximum of the name lengths. */
  method NameColumn(cmds: seq<Command>) returns (names: seq<string>, helps: seq<string>, width: nat)
    requires forall i :: 0 <= i < |cmds| ==> |cmds[i].text| > 0
    ensures |names| == |cmds| && |helps| == |cmds|
    ensures forall k :: 0 <= k < |cmds| ==> names[k] == Joined(cmds[k].text) && helps[k] == cmds[k].help
    ensures width == NameWidth(cmds)
  {
    names, helps, width := [], [], 0;
    for i := 0 to |cmds|
      invariant |names| == i && |helps| == i
      invariant forall k :: 0 <= k < i ==> names[k] == Joined(cmds[k].text) && helps[k] == cmds[k].help
      invariant width == NameWidth(cmds[..i])
    {
      var name := MergeStrings(cmds[i].text);
      names, helps := names + [name], helps + [cmds[i].help];
      assert cmds[..i + 1][..i] == cmds[..i];
      width := if width < |name| then |name| else width;
    }
    assert cmds[..|cmds|] == cmds;
  }

  /** The second loop of `print_help` (main.cpp:138-146): one padded row per
      command. */
  method TableLines(ghost cmds: seq<Command>, names: seq<string>, helps: seq<string>, width: nat)
    returns (rows: seq<string>)
    requires forall i :: 0 <= i < |cmds| ==> |cmds[i].text| > 0
    requires |names| == |cmds| && |helps| == |cmds|
    requires forall k :: 0 <= k < |cmds| ==> names[k] == Joined(cmds[k].text) && helps[k] == cmds[k].help
    requires width == NameWidth(cmds)
    ensures rows == HelpTable(cmds)
  {
    NameWidthIsMax(cmds);
    ghost var table := HelpTable(cmds);
    rows := [];
    for i := 0 to |names|
      invariant |rows| == i
      invariant forall k :: 0 <= k < i ==> rows[k] == table[k]
    {
      var line := PadLine(names[i], width, helps[i]);
      rows := rows + [line];
    }
  }

  /** The body of the second loop of `print_help` (main.cpp:141-145): the
      name, `max_cmd_len - size` blanks written one by one, the gap, the help. */
  method PadLine(name: string, width: nat, help: string) returns (line: string)
    requires |name| <= width
    ensures line == HelpLine(name, width, help)
  {
    line := name;
    var rest := width - |name|;
    for j := 0 to rest
      invariant line == name + Spaces(j)
    {
      assert Spaces(j + 1) == Spaces(j) + " ";
      line := line + " ";
    }
    line := line + "    " + help;
  }

  /** `register_commands` (main.cpp:211-217). */
  method RegisterCommands() returns (parser: CommandsParser)
    ensures fresh(parser) && parser.Valid()
    ensures parser.commands == BuiltinCommands() && !parser.isSorted
  {
    parser := new CommandsParser();
    var cmds := BuiltinCommands();
    var ok := parser.RegisterCommand(OptUserCreate, "user create", "create a new user");
    assert Tokens("user create") == cmds[0].text by { BuiltinTexts(); }
    assert parser.commands == [cmds[0]];
    ok := parser.RegisterCommand(OptUserDelete, "user delete", "delete a user");
    assert Tokens("user delete") == cmds[1].text by { BuiltinTexts(); }
    assert parser.commands == [cmds[0], cmds[1]];
    ok := parser.RegisterCommand(OptUserInfo, "user info", "get user info");
    assert Tokens("user info") == cmds[2].text by { BuiltinTexts(); }
  }

  /** The three literals `register_commands` passes split into the built-in
      token lists. */
  lemma BuiltinTexts()
    ensures Tokens("user create") == ["user", "create"]
    ensures Tokens("user delete") == ["user", "delete"]
    ensures Tokens("user info") == ["user", "info"]
  {
    assert Joined(["user", "create"]) == "user create";
    SplitJoined(["user", "create"]);
    assert Joined(["user", "delete"]) == "user delete";
    SplitJoined(["user", "delete"]);
    assert Joined(["user", "info"]) == "user info";
    SplitJoined(["user", "info"]);
  }

  /** No built-in command's text is a prefix of another's. */
  lemma BuiltinsPrefixFree()
    ensures PrefixFree(BuiltinCommands())
  {
    var cmds := BuiltinCommands();
    forall i, j | 0 <= i < |cmds| && 0 <= j < |cmds| && i != j
      ensures !IsPrefixOf(cmds[i].text, cmds[j].text)
    {
      assert cmds[i].text[1] != cmds[j].text[1];
    }
  }

  /** With the built-in registry: `user` alone is an incomplete prefix,
      `user info` selects the info command, and so does `user info` followed
      by further positional tokens. */
  lemma BuiltinRecognition(rest: seq<string>)
    ensures Recognize(BuiltinCommands(), ["user"]) == None
    ensures Recognize(BuiltinCommands(), ["user", "info"]) == Some(BuiltinCommands()[2])
    ensures Recognize(BuiltinCommands(), ["user", "info"] + rest) == Some(BuiltinCommands()[2])
  {
    var cmds := BuiltinCommands();
    assert |Candidates(cmds, ["user"])| == 3 by {
      CandidatesSlice(cmds, ["user"], 0, 3);
    }
    RecognizeIncomplete(cmds, ["user"]);
    BuiltinsPrefixFree();
    OwnTextRecognized(cmds, 2, []);
    assert ["user", "info"] + [] == ["user", "info"];
    OwnTextRecognized(cmds, 2, rest);
  }

  /** A first token no command has selects nothing, whatever follows it. */
  lemma BuiltinUnknownCommand(token: string, rest: seq<string>)
    requires token != "user"
    ensures Recognize(BuiltinCommands(), [token] + rest) == None
  {
    var cmds, args := BuiltinCommands(), [token] + rest;
    assert args[..1] == [token];
    forall j | 0 <= j < |cmds| ensures !Matches(cmds[j], args[..1]) {
      assert cmds[j].text[..1] == ["user"];
    }
    CandidatesSlice(cmds, args[..1], 0, 0);
    RecognizeAt(cmds, args, 1);
  }
}
