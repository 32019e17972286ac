/** The command dispatcher object: a statically allocated array of
    `MAX_COMMANDS` entries of which the first `commandCount` are in use. Its
    methods are proved against the value-level definitions of `CommandTable`. */
module CommandSystem {
  import opened Platform
  import opened AsciiString
  import opened CommandTable

  /** The first steps of `executeCommand`, which rewrite the local copy of the
      message in place: lower-case it, trim it, drop one leading slash. */
  method NormalizeCommand(message: string) returns (cmd: string)
    ensures cmd == Normalize(message)
  {
    cmd := message;
    cmd := ToLower(cmd);
    cmd := Trim(cmd);
    if |cmd| > 0 && cmd[0] == '/' {
      cmd := cmd[1..];
    }
    NormalizeFrom(message, Trim(ToLower(message)));
  }

  class CommandSystem<C(0)> {
    var commands: array<Command<C>>
    var commandCount: nat

    ghost predicate Valid()
      reads this
    {
      commands.Length == MAX_COMMANDS && commandCount <= MAX_COMMANDS
    }

    /** The registered entries, in registration order. */
    ghost function Table(): seq<Command<C>>
      reads this, commands
      requires Valid()
    {
      commands[..commandCount]
    }

    /** The constructor leaves the table empty. */
    constructor ()
      ensures Valid() && fresh(commands)
      ensures commandCount == 0 && Table() == []
    {
      commands := new Command<C>[MAX_COMMANDS];
      commandCount := 0;
    }

    /** `addCommand`: on a full table, refuses and changes nothing; otherwise
        stores the entry in slot `commandCount`, leaves every other slot alone
        and counts one more entry. */
    method AddCommand(name: string, description: string, callback: C) returns (ok: bool)
      requires Valid()
      modifies this`commandCount, commands
      ensures Valid()
      ensures ok <==> old(commandCount) < MAX_COMMANDS
      ensures ok ==> (commandCount == old(commandCount) + 1 &&
        commands[..] == old(commands[..])[old(commandCount) := Command(name, description, callback)])
      ensures !ok ==> commandCount == old(commandCount) && commands[..] == old(commands[..])
      ensures Table() == Appended(old(Table()), Command(name, description, callback))
    {
      if commandCount >= MAX_COMMANDS {
        return false;
      }
      commands[commandCount] := Command(name, description, callback);
      commandCount := commandCount + 1;
      ok := true;
    }

    /** `executeCommand`: normalise the message, then scan the entries in index
        order for the first whose name equals it. The result is the one effect
        of the call: no callback and no reply for an empty name, the callback of
        the first matching entry, or the "unknown command" reply. */
    method ExecuteCommand(message: string) returns (r: Execution<C>)
      requires Valid()
      ensures r == Execute(Table(), message)
    {
      var cmd := NormalizeCommand(message);
      if |cmd| == 0 {
        return NoOp;
      }
      ghost var table := Table();
      var commandFound := false;
      var i := 0;
      while i < commandCount
        invariant 0 <= i <= commandCount
        invariant NoneNamed(table[..i], cmd)
        invariant !commandFound
      {
        if commands[i].name == cmd {
          r := Run(i, commands[i].callback);
          commandFound := true;
          break;
        }
        SliceExtend(table, i);
        i := i + 1;
      }
      if !commandFound {
        r := Unknown(UnknownReply(cmd));
        assert table[..i] == table;
        ExecuteMissing(table, message);
      } else {
        ExecuteFound(table, message, i);
      }
    }

    /** `getHelpText`: the header, one line per registered entry in index order
        (and nothing for the unused slots past `commandCount`), then the tips. */
    method GetHelpText() returns (helpText: string)
      requires Valid()
      ensures helpText == HelpText(Table())
    {
      ghost var table := Table();
      helpText := HELP_HEADER;
      var i := 0;
      while i < commandCount
        invariant 0 <= i <= commandCount
        invariant helpText == HELP_HEADER + HelpLines(table[..i])
      {
        SliceExtend(table, i);
        helpText := helpText + HelpLine(commands[i]);
        i := i + 1;
      }
      assert table[..i] == table;
      helpText := helpText + HELP_TIPS;
    }
  }
}
