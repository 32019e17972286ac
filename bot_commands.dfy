/** The command set the bot registers at start-up, with each command body
    reduced to what it does to the LED; the chat replies the bodies send are
    not modelled. `ProcessNewMessage` joins the dispatcher to the LED: the
    content of a forwarded message selects at most one body, and that body's
    LED effect is the only change. */
module BotCommands {
  import opened Platform
  import opened AsciiString
  import opened LedModel
  import opened CommandTable
  import opened CommandSystem
  import opened NeoPixel

  /** The ten command bodies. */
  datatype Callback = Status | TurnOn | TurnOff | Rainbow | Red | Green | Blue | White | Off | Help

  /** What each body does to the LED: the two "PC" commands flash green or red
      over the current mode, `rainbow` turns the animation back on, the colour
      commands set a static colour, `off` switches the LED off, and `status`
      and `help` only read state and reply. */
  function Effect(cb: Callback, s: LedState): (t: LedState)
    ensures Inv(s) ==> Inv(t)
    ensures cb == Status || cb == Help ==> t == s
    ensures cb == Off ==> !t.enabled && !t.rainbowMode && t.pixel == BLACK
    ensures cb != Off ==> (t.enabled <==> s.enabled || cb !in {Status, Help, TurnOn, TurnOff})
  {
    match cb
    case Status => s
    case TurnOn => LedModel.FlashColor(s, 0, 255, 0)
    case TurnOff => LedModel.FlashColor(s, 255, 0, 0)
    case Rainbow => LedModel.SetEnabled(LedModel.SetRainbowMode(s, true), true)
    case Red => LedModel.SetColor(s, 255, 0, 0)
    case Green => LedModel.SetColor(s, 0, 255, 0)
    case Blue => LedModel.SetColor(s, 0, 0, 255)
    case White => LedModel.SetColor(s, 255, 255, 255)
    case Off => LedModel.SetEnabled(s, false)
    case Help => s
  }

  /** No command breaks the LED invariant. */
  lemma EffectKeepsInv(cb: Callback, s: LedState)
    requires Inv(s)
    ensures Inv(Effect(cb, s))
  {
    match cb
    case TurnOn => FlashRestoresMode(s, 0, 255, 0);
    case TurnOff => FlashRestoresMode(s, 255, 0, 0);
    case _ =>
  }

  /** `rainbow` always ends animating; its `setEnabled(true)` adds nothing to
      `setRainbowMode(true)`. */
  lemma RainbowCommandAnimates(s: LedState)
    ensures Effect(Rainbow, s) == LedModel.SetRainbowMode(s, true)
    ensures Effect(Rainbow, s).rainbowMode && Effect(Rainbow, s).enabled
  {
  }

  /** The two "PC" commands keep the LED's mode flags as they were and leave the
      flash colour in the pixel. */
  lemma PcCommandsKeepMode(s: LedState)
    requires Inv(s)
    ensures Effect(TurnOn, s).rainbowMode == s.rainbowMode && Effect(TurnOn, s).enabled == s.enabled
    ensures Effect(TurnOff, s).rainbowMode == s.rainbowMode && Effect(TurnOff, s).enabled == s.enabled
    ensures Effect(TurnOn, s).pixel == Rgb(0, 255, 0) && Effect(TurnOff, s).pixel == Rgb(255, 0, 0)
  {
    FlashRestoresMode(s, 0, 255, 0);
    FlashRestoresMode(s, 255, 0, 0);
  }

  /** A body runs its LED manager calls in order. */
  method Perform(cb: Callback, led: NeoPixelManager)
    requires led.Valid()
    modifies led, led.pixels
    ensures led.Valid() && led.pixels == old(led.pixels)
    ensures led.State() == Effect(cb, old(led.State()))
  {
    match cb
    case Status =>
    case TurnOn => led.FlashColor(0, 255, 0, 500);
    case TurnOff => led.FlashColor(255, 0, 0, 500);
    case Rainbow =>
      led.SetRainbowMode(true);
      led.SetEnabled(true);
    case Red => led.SetRed();
    case Green => led.SetGreen();
    case Blue => led.SetBlue();
    case White => led.SetWhite();
    case Off => led.TurnOff();
    case Help =>
  }

  /** `processNewMessage`: run the dispatcher on the message and, when it picks
      an entry, that entry's body. A message that names nothing leaves the LED
      as it was. */
  method ProcessNewMessage(commands: CommandSystem<Callback>, led: NeoPixelManager, message: string)
    returns (r: Execution<Callback>)
    requires commands.Valid() && led.Valid()
    modifies led, led.pixels
    ensures led.Valid() && led.pixels == old(led.pixels)
    ensures r == Execute(commands.Table(), message)
    ensures led.State() == if r.Run? then Effect(r.callback, old(led.State())) else old(led.State())
  {
    r := commands.ExecuteCommand(message);
    if r.Run? {
      Perform(r.callback, led);
    }
  }

  /** The registration list, in the order it is registered. */
  function SystemTable(): (table: seq<Command<Callback>>)
    ensures 0 < |table| <= MAX_COMMANDS
    ensures forall k :: 0 <= k < |table| ==> |table[k].name| > 0
  {
    [ Command("status", "Check system status", Status),
      Command("turn_on", "Turn on the PC", TurnOn),
      Command("turn_off", "Turn off the PC", TurnOff),
      Command("rainbow", "Enable rainbow LED mode", Rainbow),
      Command("red", "Set LED to red", Red),
      Command("green", "Set LED to green", Green),
      Command("blue", "Set LED to blue", Blue),
      Command("white", "Set LED to white", White),
      Command("off", "Turn off LED", Off),
      Command("help", "Show available commands", Help) ]
  }

  /** All ten registrations fit: registering the list into the empty table
      yields exactly the list. */
  lemma SystemTableFits()
    ensures RegisteredAfter([], SystemTable()) == SystemTable()
  {
    var table := SystemTable();
    assert |table| == 10;
    AllFit(table);
  }

  /** The registered names are distinct and each is typed the way the
      dispatcher normalises. */
  lemma SystemNamesCanonical(i: nat)
    requires i < |SystemTable()|
    ensures Canonical(SystemTable()[i].name)
    ensures NoneNamed(SystemTable()[..i], SystemTable()[i].name)
  {
    SystemNamesDistinct(i);
    var name := SystemTable()[i].name;
    LowerWordCanonical(name);
  }

  /** A non-empty word of lower-case letters and underscores is canonical. */
  lemma LowerWordCanonical(name: string)
    requires |name| > 0 && forall k :: 0 <= k < |name| ==> 'a' <= name[k] <= 'z' || name[k] == '_'
    ensures Canonical(name)
  {
  }

  lemma SystemNamesDistinct(i: nat)
    requires i < |SystemTable()|
    ensures NoneNamed(SystemTable()[..i], SystemTable()[i].name)
  {
  }

  /** Every registered command can be invoked in any letter case, with or
      without one leading slash, and with whitespace on either side, and then
      its own body runs. */
  lemma SystemCommandReachable(i: nat, typed: string, slash: bool, pre: string, post: string)
    requires i < |SystemTable()| && ToLower(typed) == SystemTable()[i].name
    requires AllSpace(pre) && AllSpace(post)
    ensures var message := pre + (if slash then "/" else "") + typed + post;
      Execute(SystemTable(), message) == Run(i, SystemTable()[i].callback)
  {
    var table := SystemTable();
    SystemNamesCanonical(i);
    CanonicalEntryRuns(table, i, typed, slash, pre, post);
  }
}
