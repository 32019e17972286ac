/** What the command dispatcher means, stated on values: the fixed-capacity
    table of `{name, description, callback}` entries, how an incoming message is
    normalised into a command name, which entry a name selects, and the text
    of the help listing. The callback type `C` is left abstract: the table
    never looks inside a callback, it only decides which one runs. */
module CommandTable {
  import opened Platform
  import opened AsciiString

  /** `MAX_COMMANDS`: the length of the statically allocated table. */
  const MAX_COMMANDS: nat := 20

  datatype Command<C> = Command(name: string, description: string, callback: C)

  /** What one call of `executeCommand` does: nothing at all, invoke exactly one
      callback (that of table entry `index`), or send exactly one reply. */
  datatype Execution<C> = NoOp | Run(index: nat, callback: C) | Unknown(reply: string)

  /** The table after one `addCommand`: appended when there is room, unchanged otherwise. */
  function Appended<C>(table: seq<Command<C>>, entry: Command<C>): (t: seq<Command<C>>)
    ensures |table| <= MAX_COMMANDS ==> |t| <= MAX_COMMANDS
    ensures |t| == |table| + 1 <==> |table| < MAX_COMMANDS
    ensures |t| == |table| || |t| == |table| + 1
    ensures forall k :: 0 <= k < |table| ==> t[k] == table[k]
  {
    if |table| < MAX_COMMANDS then table + [entry] else table
  }

  /** The table after registering `entries` one after the other, starting from `table`. */
  function RegisteredAfter<C>(table: seq<Command<C>>, entries: seq<Command<C>>): seq<Command<C>>
    decreases |entries|
  {
    if entries == [] then table else RegisteredAfter(Appended(table, entries[0]), entries[1..])
  }

  function Min(a: nat, b: nat): nat {
    if a <= b then a else b
  }

  /** Registering entries from an empty (or any non-overfull) table keeps exactly
      the first ones that fit, in order: the count never exceeds `MAX_COMMANDS`,
      and every entry offered once the table is full is lost. */
  lemma {:induction false} RegisteredKeepsFirstThatFit<C>(table: seq<Command<C>>, entries: seq<Command<C>>)
    requires |table| <= MAX_COMMANDS
    ensures RegisteredAfter(table, entries) == (table + entries)[..Min(|table| + |entries|, MAX_COMMANDS)]
    decreases |entries|
  {
    if entries == [] {
      assert table + entries == table;
    } else {
      var next := Appended(table, entries[0]);
      RegisteredKeepsFirstThatFit(next, entries[1..]);
      if |table| < MAX_COMMANDS {
        assert next + entries[1..] == table + entries;
      } else {
        assert (table + entries)[..MAX_COMMANDS] == table;
        assert (table + entries[1..])[..MAX_COMMANDS] == table;
      }
    }
  }

  /** Up to `MAX_COMMANDS` entries registered into an empty table are all kept, in order. */
  lemma AllFit<C>(entries: seq<Command<C>>)
    requires |entries| <= MAX_COMMANDS
    ensures RegisteredAfter([], entries) == entries
  {
    RegisteredKeepsFirstThatFit([], entries);
    assert [] + entries == entries;
  }

  /** The command name `executeCommand` looks up: the message lower-cased, then
      trimmed, then stripped of one leading `/`. Nothing is trimmed after the
      slash is removed. */
  function Normalize(message: string): (cmd: string)
    ensures NoUpper(cmd)
    ensures |cmd| <= |message|
  {
    var t := Trim(ToLower(message));
    TrimKeepsNoUpper(ToLower(message));
    if |t| > 0 && t[0] == '/' then t[1..] else t
  }

  /** A name that some message normalises to itself: non-empty, no upper-case
      letter, no surrounding whitespace, no leading slash. */
  predicate Canonical(name: string) {
    && |name| > 0
    && NoUpper(name)
    && !IsSpace(name[0]) && !IsSpace(name[|name| - 1])
    && name[0] != '/'
  }

  /** Whitespace around a message (tab, newline, ...) makes no difference. */
  lemma SurroundingSpaceIgnored(pre: string, message: string, post: string)
    requires AllSpace(pre) && AllSpace(post)
    ensures Normalize(pre + message + post) == Normalize(message)
  {
    ToLowerFixes(pre);
    ToLowerFixes(post);
    ToLowerAppend(pre, message);
    ToLowerAppend(pre + message, post);
    TrimIgnoresSurroundingSpace(pre, ToLower(message), post);
  }

  /** The name a message selects, from the message lower-cased and trimmed. */
  lemma NormalizeFrom(message: string, t: string)
    requires Trim(ToLower(message)) == t
    ensures Normalize(message) == if |t| > 0 && t[0] == '/' then t[1..] else t
  {
  }

  /** "Commands are case-insensitive": any spelling that folds to a canonical
      name, surrounded by any whitespace, selects that name. */
  lemma CanonicalNameReachable(name: string, typed: string, pre: string, post: string)
    requires Canonical(name) && ToLower(typed) == name
    requires AllSpace(pre) && AllSpace(post)
    ensures Normalize(pre + typed + post) == name
  {
    SurroundingSpaceIgnored(pre, typed, post);
    TrimFixes(name);
    NormalizeFrom(typed, name);
  }

  /** "You can use commands with or without `/`": the same spellings with one
      slash in front select the same name. */
  lemma SlashedNameReachable(name: string, typed: string, pre: string, post: string)
    requires Canonical(name) && ToLower(typed) == name
    requires AllSpace(pre) && AllSpace(post)
    ensures Normalize(pre + "/" + typed + post) == name
  {
    assert pre + "/" + typed + post == pre + ("/" + typed) + post;
    SlashedAround(name, typed, pre, post);
  }

  lemma SlashedAround(name: string, typed: string, pre: string, post: string)
    requires Canonical(name) && ToLower(typed) == name
    requires AllSpace(pre) && AllSpace(post)
    ensures Normalize(pre + ("/" + typed) + post) == name
  {
    SurroundingSpaceIgnored(pre, "/" + typed, post);
    SlashReachable(name, typed);
  }

  lemma SlashReachable(name: string, typed: string)
    requires Canonical(name) && ToLower(typed) == name
    ensures Normalize("/" + typed) == name
  {
    SlashFolds(typed);
    SlashedCanonical(name);
    DropHead('/', name);
    NormalizeFrom("/" + typed, "/" + name);
  }

  lemma SlashedCanonical(name: string)
    requires Canonical(name)
    ensures Trim("/" + name) == "/" + name
  {
    PrefixedName("/", name);
    TrimFixes("/" + name);
  }

  lemma DropHead<T>(c: T, s: seq<T>)
    ensures ([c] + s)[1..] == s
  {
  }

  lemma SlashFolds(typed: string)
    ensures ToLower("/" + typed) == "/" + ToLower(typed)
  {
    ToLowerAppend("/", typed);
    assert ToLower("/") == "/";
  }

  /** A non-empty prefix without upper-case letters put before a canonical name. */
  lemma PrefixedName(p: string, name: string)
    requires Canonical(name) && NoUpper(p) && p != []
    ensures var s := p + name;
      NoUpper(s) && s[0] == p[0] && s[|s| - 1] == name[|name| - 1] && s[1..] == p[1..] + name
  {
    var s := p + name;
    assert s[1..] == p[1..] + name;
  }

  /** Only one slash is removed and nothing is trimmed afterwards: `"/ help"`
      selects `" help"` and `"//help"` selects `"/help"`, neither of which a
      registered canonical name can equal. */
  lemma NoTrimAfterSlash(name: string)
    requires Canonical(name)
    ensures Normalize("/ " + name) == " " + name
    ensures Normalize("//" + name) == "/" + name
  {
    PlainNormalizes("/ ", name);
    PlainNormalizes("//", name);
  }

  /** A two-character prefix starting with `/` and ending in a non-space
      character, put before a canonical name, only loses the `/`. */
  lemma PlainNormalizes(p: string, name: string)
    requires Canonical(name) && |p| == 2 && p[0] == '/' && !IsUpper(p[1])
    ensures Normalize(p + name) == [p[1]] + name
  {
    var s := p + name;
    PrefixedName(p, name);
    ToLowerFixes(s);
    TrimFixes(s);
    NormalizeFrom(s, s);
    assert p[1..] == [p[1]];
  }

  /** A message selects the empty name (and so does nothing) exactly when, once
      lower-cased and trimmed, it is empty or a lone slash. */
  lemma EmptyCommandIff(message: string)
    ensures Normalize(message) == "" <==> Trim(ToLower(message)) == "" || Trim(ToLower(message)) == "/"
  {
    var t := Trim(ToLower(message));
    NormalizeFrom(message, t);
    SlashOnlyEmpty(t);
  }

  lemma SlashOnlyEmpty(t: string)
    ensures (if |t| > 0 && t[0] == '/' then t[1..] else t) == "" <==> t == "" || t == "/"
  {
    if |t| > 0 && t[0] == '/' {
      assert t == [t[0]] + t[1..];
    }
  }

  /** An empty or all-whitespace message selects the empty name. */
  lemma BlankMessageIgnored(message: string)
    requires AllSpace(message)
    ensures Normalize(message) == ""
  {
    ToLowerFixes(message);
    AllSpaceTrimsAway(message);
  }

  /** A lone slash, with any whitespace around it, selects the empty name. */
  lemma LoneSlashIgnored(pre: string, post: string)
    requires AllSpace(pre) && AllSpace(post)
    ensures Normalize(pre + "/" + post) == ""
  {
    SurroundingSpaceIgnored(pre, "/", post);
    assert ToLower("/") == "/";
    TrimFixes("/");
    NormalizeFrom("/", "/");
  }

  predicate NoneNamed<C>(table: seq<Command<C>>, cmd: string) {
    forall j :: 0 <= j < |table| ==> table[j].name != cmd
  }

  /** The first-match linear search of `executeCommand`, by exact equality. */
  function FindFirst<C>(table: seq<Command<C>>, cmd: string): (r: Option<nat>)
    ensures r.Some? ==> r.value < |table| && table[r.value].name == cmd && NoneNamed(table[..r.value], cmd)
    ensures r.None? ==> NoneNamed(table, cmd)
  {
    if table == [] then None
    else if table[0].name == cmd then Some(0)
    else match FindFirst(table[1..], cmd)
      case None => None
      case Some(k) =>
        assert table[..k + 1] == [table[0]] + table[1..][..k];
        Some(k + 1)
  }

  const UNKNOWN_PREFIX: string := "\U{274C} Unknown command: `"
  const UNKNOWN_SUFFIX: string := "`. Type `help` to see available commands."

  /** The reply sent for a name that no entry has. */
  function UnknownReply(cmd: string): (reply: string)
    ensures |reply| == |UNKNOWN_PREFIX| + |cmd| + |UNKNOWN_SUFFIX|
    ensures reply[..|UNKNOWN_PREFIX|] == UNKNOWN_PREFIX
    ensures reply[|UNKNOWN_PREFIX|..|UNKNOWN_PREFIX| + |cmd|] == cmd
    ensures reply[|UNKNOWN_PREFIX| + |cmd|..] == UNKNOWN_SUFFIX
  {
    UNKNOWN_PREFIX + cmd + UNKNOWN_SUFFIX
  }

  /** The reply embeds the normalised name recoverably: different names give
      different replies. */
  lemma UnknownReplyInjective(a: string, b: string)
    requires UnknownReply(a) == UnknownReply(b)
    ensures a == b
  {
    var ra, rb := UnknownReply(a), UnknownReply(b);
    assert |a| == |b|;
    assert a == ra[|UNKNOWN_PREFIX|..|UNKNOWN_PREFIX| + |a|];
    assert b == rb[|UNKNOWN_PREFIX|..|UNKNOWN_PREFIX| + |b|];
  }

  /** `executeCommand` on a table: an empty name does nothing; otherwise the first
      entry whose name equals the name exactly has its callback run, once; if
      there is none, one "unknown command" reply naming it is sent. */
  function Execute<C>(table: seq<Command<C>>, message: string): (r: Execution<C>)
    ensures r.NoOp? <==> Normalize(message) == ""
    ensures r.Run? <==> Normalize(message) != "" && !NoneNamed(table, Normalize(message))
    ensures r.Run? ==> && r.index < |table|
                       && table[r.index].name == Normalize(message)
                       && r.callback == table[r.index].callback
                       && NoneNamed(table[..r.index], Normalize(message))
    ensures r.Unknown? ==> r.reply == UnknownReply(Normalize(message))
  {
    var cmd := Normalize(message);
    if cmd == "" then NoOp
    else match FindFirst(table, cmd)
      case Some(i) => Run(i, table[i].callback)
      case None => Unknown(UnknownReply(cmd))
  }

  /** The entry the dispatcher's scan stops at is the one `Execute` runs. */
  lemma ExecuteFound<C>(table: seq<Command<C>>, message: string, i: nat)
    requires Normalize(message) != "" && i < |table| && table[i].name == Normalize(message)
    requires NoneNamed(table[..i], Normalize(message))
    ensures Execute(table, message) == Run(i, table[i].callback)
  {
    FindFirstIsFirstMatch(table, Normalize(message), i);
  }

  /** A scan that finds no entry ends in the unknown-command reply. */
  lemma ExecuteMissing<C>(table: seq<Command<C>>, message: string)
    requires Normalize(message) != "" && NoneNamed(table, Normalize(message))
    ensures Execute(table, message) == Unknown(UnknownReply(Normalize(message)))
  {
  }

  /** An entry with a canonical name that no earlier entry shares is what any
      spelling of that name selects: in any letter case, with or without one
      leading slash, with whitespace on either side. */
  lemma CanonicalEntryRuns<C>(table: seq<Command<C>>, i: nat, typed: string, slash: bool, pre: string, post: string)
    requires i < |table| && Canonical(table[i].name) && NoneNamed(table[..i], table[i].name)
    requires ToLower(typed) == table[i].name && AllSpace(pre) && AllSpace(post)
    ensures Execute(table, pre + (if slash then "/" else "") + typed + post) == Run(i, table[i].callback)
  {
    var message := pre + (if slash then "/" else "") + typed + post;
    if slash {
      SlashedNameReachable(table[i].name, typed, pre, post);
    } else {
      assert message == pre + typed + post;
      CanonicalNameReachable(table[i].name, typed, pre, post);
    }
    ExecuteFound(table, message, i);
  }

  lemma {:induction false} FindFirstIsFirstMatch<C>(table: seq<Command<C>>, cmd: string, i: nat)
    requires i < |table| && table[i].name == cmd && NoneNamed(table[..i], cmd)
    ensures FindFirst(table, cmd) == Some(i)
  {
    if i > 0 {
      assert table[..i][0] == table[0];
      assert table[1..][..i - 1] == table[..i][1..];
      FindFirstIsFirstMatch(table[1..], cmd, i - 1);
    }
  }

  /** Later entries with the same name are shadowed: entry `j` never runs when an
      earlier entry `i` has the same name. */
  lemma DuplicateNeverRuns<C>(table: seq<Command<C>>, message: string, i: nat, j: nat)
    requires i < j < |table| && table[i].name == table[j].name
    ensures Execute(table, message) != Run(j, table[j].callback)
  {
    var cmd := Normalize(message);
    if cmd != "" && cmd == table[i].name {
      FindFirstAtMost(table, cmd, i);
    }
  }

  /** The search stops at or before any index that holds the name. */
  lemma {:induction false} FindFirstAtMost<C>(table: seq<Command<C>>, cmd: string, i: nat)
    requires i < |table| && table[i].name == cmd
    ensures FindFirst(table, cmd).Some? && FindFirst(table, cmd).value <= i
  {
    if table[0].name != cmd {
      assert table[1..][i - 1] == table[i];
      FindFirstAtMost(table[1..], cmd, i - 1);
    }
  }

  /** Registered names are compared with the lower-cased message as they are, so
      an entry whose name holds an upper-case letter can never run. */
  lemma UppercaseNameNeverRuns<C>(table: seq<Command<C>>, message: string, i: nat, k: nat)
    requires i < |table| && k < |table[i].name| && IsUpper(table[i].name[k])
    ensures !(Execute(table, message).Run? && Execute(table, message).index == i)
  {
  }

  /** Registering a name that is already present changes nothing any message does. */
  lemma {:induction false} AddingShadowedNameChangesNothing<C>(table: seq<Command<C>>, entry: Command<C>, message: string)
    requires !NoneNamed(table, entry.name)
    ensures Execute(Appended(table, entry), message) == Execute(table, message)
  {
    var cmd := Normalize(message);
    if cmd != "" && |table| < MAX_COMMANDS {
      var t := table + [entry];
      match FindFirst(table, cmd)
      case Some(k) =>
        PrefixOfAppend(table, [entry], k);
        FindFirstIsFirstMatch(t, cmd, k);
      case None =>
        NoneNamedAfterAppend(table, entry, cmd);
    }
  }

  lemma NoneNamedAfterAppend<C>(table: seq<Command<C>>, entry: Command<C>, cmd: string)
    requires NoneNamed(table, cmd) && entry.name != cmd
    ensures NoneNamed(table + [entry], cmd)
  {
    var t := table + [entry];
    forall j | 0 <= j < |t| ensures t[j].name != cmd {
      if j < |table| { assert t[j] == table[j]; }
    }
  }

  /** Registering a new name on a table with room makes exactly the messages that
      select that name run the new entry. */
  lemma AddedCommandRuns<C>(table: seq<Command<C>>, entry: Command<C>, message: string)
    requires |table| < MAX_COMMANDS && NoneNamed(table, entry.name)
    requires entry.name != "" && Normalize(message) == entry.name
    ensures Execute(Appended(table, entry), message) == Run(|table|, entry.callback)
  {
    var t := Appended(table, entry);
    assert t[|table|].name == entry.name;
    assert t[..|table|] == table;
  }

  const HELP_HEADER: string := "\U{1F916} **Available Commands:**\n\n"
  const HELP_TIPS: string :=
    "\n\U{1F4A1} **Tips:**\n"
    + "\U{2022} Commands are case-insensitive\n"
    + "\U{2022} You can use commands with or without `/`\n"
    + "\U{2022} LED starts in rainbow mode by default"

  /** The help line of one entry. */
  function HelpLine<C>(c: Command<C>): (line: string)
    ensures |line| == |c.name| + |c.description| + 6
    ensures "`" + c.name + "`" <= line && EndsWith(line, "\n")
  {
    "`" + c.name + "` - " + c.description + "\n"
  }

  /** The help lines of the entries of `table`, in table order. */
  function HelpLines<C>(table: seq<Command<C>>): string {
    if table == [] then [] else HelpLines(table[..|table| - 1]) + HelpLine(table[|table| - 1])
  }

  /** `getHelpText` on a table: header, one line per entry, tips. */
  function HelpText<C>(table: seq<Command<C>>): (text: string)
    ensures HELP_HEADER <= text && EndsWith(text, HELP_TIPS)
  {
    HELP_HEADER + HelpLines(table) + HELP_TIPS
  }

  lemma {:induction false} HelpLinesAppend<C>(a: seq<Command<C>>, b: seq<Command<C>>)
    ensures HelpLines(a + b) == HelpLines(a) + HelpLines(b)
    decreases |b|
  {
    if b == [] {
      assert a + b == a;
    } else {
      var b' := b[..|b| - 1];
      DropLastOfAppend(a, b);
      HelpLinesAppend(a, b');
      assert HelpLines(b) == HelpLines(b') + HelpLine(b[|b| - 1]);
    }
  }

  /** The help listing holds the line of entry `i` right after the lines of the
      entries before it: every entry is listed, in index order. */
  lemma HelpLineAt<C>(table: seq<Command<C>>, i: nat)
    requires i < |table|
    ensures var at := |HELP_HEADER| + |HelpLines(table[..i])|;
      at + |HelpLine(table[i])| <= |HelpText(table)| &&
      HelpText(table)[at..at + |HelpLine(table[i])|] == HelpLine(table[i])
  {
    HelpLinesSplit(table, i);
    var x := HELP_HEADER + HelpLines(table[..i]);
    var line, z := HelpLine(table[i]), HelpLines(table[i + 1..]) + HELP_TIPS;
    Regroup(HELP_HEADER, HelpLines(table[..i]), line, HelpLines(table[i + 1..]), HELP_TIPS);
    MiddleSlice(x, line, z);
  }

  lemma Regroup<T>(h: seq<T>, a: seq<T>, l: seq<T>, r: seq<T>, t: seq<T>)
    ensures h + (a + l + r) + t == (h + a) + l + (r + t)
  {
  }

  /** The help lines of a table are those before entry `i`, entry `i`'s line,
      and those after it. */
  lemma HelpLinesSplit<C>(table: seq<Command<C>>, i: nat)
    requires i < |table|
    ensures HelpLines(table) == HelpLines(table[..i]) + HelpLine(table[i]) + HelpLines(table[i + 1..])
  {
    var upTo := table[..i] + [table[i]];
    SplitAround(table, i);
    HelpLinesAppend(upTo, table[i + 1..]);
  }

  lemma PrefixOfAppend<T>(a: seq<T>, b: seq<T>, k: nat)
    requires k < |a|
    ensures (a + b)[..k] == a[..k] && (a + b)[k] == a[k]
  {
  }

  lemma DropLastOfAppend<T>(a: seq<T>, b: seq<T>)
    requires b != []
    ensures (a + b)[..|a + b| - 1] == a + b[..|b| - 1]
    ensures (a + b)[|a + b| - 1] == b[|b| - 1]
  {
  }

  predicate EndsWith<T(==)>(s: seq<T>, suffix: seq<T>) {
    |suffix| <= |s| && s[|s| - |suffix|..] == suffix
  }

  lemma SliceExtend<T>(s: seq<T>, i: nat)
    requires i < |s|
    ensures s[..i + 1] == s[..i] + [s[i]]
    ensures s[..i + 1][..i] == s[..i]
    ensures s[..i + 1][i] == s[i]
  {
  }

  lemma SplitAround<T>(s: seq<T>, i: nat)
    requires i < |s|
    ensures s == (s[..i] + [s[i]]) + s[i + 1..]
    ensures (s[..i] + [s[i]])[..i] == s[..i]
  {
    assert s[i..] == [s[i]] + s[i + 1..];
    assert s == s[..i] + s[i..];
  }

  lemma MiddleSlice<T>(x: seq<T>, y: seq<T>, z: seq<T>)
    ensures (x + y + z)[|x|..|x| + |y|] == y
  {
  }
}
