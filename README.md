# ESP32 chat bot: command dispatcher, status LED and message poller

This project is a Dafny model of the three stateful components of an ESP32
firmware that controls an LED from a chat channel.

- **Command dispatcher** (`CommandSystem`). It holds a fixed array of 20
  `{name, description, callback}` entries. `addCommand` appends with a bound.
  `executeCommand` lower-cases the message, trims it, drops one leading `/`,
  runs the first entry whose name is exactly equal, and otherwise replies
  "unknown command". `getHelpText` lists the entries.
- **Status LED** (`NeoPixelManager`). This is a state machine over two flags
  (`rainbowMode`, `enabled`), a hue counter modulo 256, the time of the last
  animation frame, and the colour of the strip's single pixel.
- **Message client** (`DiscordClient`). `update` rate-limits polling to one
  poll per 10 s, using wrapping 32-bit millisecond arithmetic. `pollMessages`
  fetches the latest message. It forwards the content when the message is new,
  has an id and did not come from a bot, and it remembers that id.
  `sendMessage` reports success for HTTP status 200 or 201.

Modules:

| file | module | contents |
|---|---|---|
| `platform.dfy` | `Platform` | `u8`/`u16`/`u32`, `Option`, wrapping `Elapsed` (`unsigned long` subtraction) |
| `ascii_string.dfy` | `AsciiString` | ASCII `toLowerCase` and `trim` |
| `command_table.dfy` | `CommandTable` | the command table as a value: registration, normalisation, lookup, replies, help text |
| `command_system.dfy` | `CommandSystem` | class `CommandSystem` over a 20-slot `array`, proved against `CommandTable` |
| `led_model.dfy` | `LedModel` | the LED state machine as functions on a state value, and its invariant |
| `neo_pixel.dfy` | `NeoPixel` | class `NeoPixelManager` with its fields and pixel buffer, proved against `LedModel` |
| `poll_model.dfy` | `PollModel` | the rate gate, the forward/drop decision and the remembered id, as values |
| `discord_client.dfy` | `Discord` | class `DiscordClient`, proved against `PollModel` |
| `bot_commands.dfy` | `BotCommands` | the ten registered commands as LED effects, and the message-to-LED path |

Each class method is proved against a function of the state before the call.
The properties the firmware promises are then proved as lemmas about those
functions.

The environment becomes parameters:

- The millisecond clock is a `u32` argument. `update` in both the LED manager
  and the client reads `millis()` twice: once to test the interval and once to
  record the new time. The model therefore takes two readings, `now` and
  `shownAt`/`finishedAt`. Their difference is the time the frame or poll took.
- The HTTP transport is a function argument from request to response. A `GET`
  returns a status code and a decoded body. A `POST` returns a status code;
  a code of 0 or less stands for a transport failure.
- A decoded JSON body is either a decoding failure or an array of message
  records `{id, content, author.id, author.bot}`.
- The API base URL and the channel id come from a build configuration file,
  which is not part of this model. They are constructor arguments of
  `DiscordClient`.

The client in this code is a plain HTTP poller. It has no gateway connection,
heartbeat, session resume or reconnect backoff, so none is modelled. The
comment in `src/SystemManager.cpp:24-25` that mentions a WebSocket connection
does not describe what the code does. The code also applies no channel filter
and no empty-content check before forwarding. An empty content is forwarded,
and the dispatcher then ignores it.

## Model

| member | source | states |
|---|---|---|
| Platform.Elapsed | src/DiscordClient.cpp:16 | the unsigned 32-bit difference `now - since`: the plain difference without wrap, `now + 2^32 - since` after a wrap, and adding it to `since` modulo 2^32 gives back `now` |
| Platform.ElapsedAfter | src/NeoPixelManager.cpp:43 | `d` milliseconds after `since` (modulo 2^32) the elapsed time is exactly `d`, also across a counter wrap |
| AsciiString.ToLower | src/CommandSystem.cpp:25 | same length; each upper-case ASCII letter becomes its lower-case letter and every other character is kept |
| AsciiString.TrimLeft | src/CommandSystem.cpp:26 | the result is a suffix, everything removed is whitespace, and the result does not start with whitespace |
| AsciiString.TrimRight | src/CommandSystem.cpp:26 | the result is a prefix, everything removed is whitespace, and the result does not end with whitespace |
| AsciiString.Trim | src/CommandSystem.cpp:26 | `trim` never lengthens the string, and its result neither starts nor ends with whitespace |
| AsciiString.TrimIgnoresSurroundingSpace | src/CommandSystem.cpp:26 | whitespace added on either side does not change what `trim` returns |
| AsciiString.TrimFixes | src/CommandSystem.cpp:26 | `trim` leaves a string without whitespace at either end unchanged |
| CommandTable.Appended | src/CommandSystem.cpp:11-21 | one `addCommand` keeps every stored entry in its slot, adds one entry exactly when fewer than 20 are stored, and never takes the table past 20 |
| CommandTable.RegisteredKeepsFirstThatFit | src/CommandSystem.cpp:11-21 | any sequence of registrations from a table of at most 20 entries keeps exactly the first entries that fit, in order, and drops every entry offered once 20 are stored |
| CommandTable.AllFit | src/CommandSystem.cpp:11-21 | up to 20 registrations into the empty table are all kept, in order |
| CommandTable.Normalize | src/CommandSystem.cpp:24-31 | the normalised command has no upper-case letter and is never longer than the message |
| CommandTable.SurroundingSpaceIgnored | src/CommandSystem.cpp:24-31 | whitespace around a message does not change the command it selects |
| CommandTable.CanonicalNameReachable | src/CommandSystem.cpp:24-31 | any upper/lower-case spelling of a canonical name, with whitespace around it, normalises to that name |
| CommandTable.SlashedNameReachable | src/CommandSystem.cpp:28-31 | the same spellings preceded by one `/` normalise to the name as well |
| CommandTable.NoTrimAfterSlash | src/CommandSystem.cpp:26-31 | there is no second trim after the slash is dropped: `"/ name"` gives `" name"` and `"//name"` gives `"/name"` |
| CommandTable.EmptyCommandIff | src/CommandSystem.cpp:28-35 | the command is empty exactly when the trimmed, lower-cased message is empty or a lone `/` |
| CommandTable.BlankMessageIgnored | src/CommandSystem.cpp:33-35 | an empty or all-whitespace message selects the empty command |
| CommandTable.LoneSlashIgnored | src/CommandSystem.cpp:28-35 | a `/` with only whitespace around it selects the empty command |
| CommandTable.FindFirst | src/CommandSystem.cpp:41-48 | a found index holds the name and no earlier entry does; not found means no entry has the name |
| CommandTable.UnknownReply | src/CommandSystem.cpp:52 | the reply is the fixed prefix, then the normalised command itself, then the fixed suffix pointing at `help` |
| CommandTable.UnknownReplyInjective | src/CommandSystem.cpp:52 | the unknown-command reply embeds the normalised command recoverably: different commands give different replies |
| CommandTable.Execute | src/CommandSystem.cpp:23-54 | no callback and no reply exactly when the command is empty; a callback exactly when some entry has the name, and then that of the first such entry; otherwise the one reply embedding the command |
| CommandTable.ExecuteFound | src/CommandSystem.cpp:41-47 | the entry where the scan stops is the one executed |
| CommandTable.CanonicalEntryRuns | src/CommandSystem.cpp:24-48 | an entry with a canonical name that no earlier entry shares runs for every case spelling, with or without a slash, with whitespace around it |
| CommandTable.ExecuteMissing | src/CommandSystem.cpp:50-53 | when no entry has the non-empty command, the outcome is the one unknown-command reply |
| CommandTable.FindFirstAtMost | src/CommandSystem.cpp:41-47 | the scan stops at or before any index that holds the name |
| CommandTable.FindFirstIsFirstMatch | src/CommandSystem.cpp:41-47 | the search returns the first index that holds the name |
| CommandTable.DuplicateNeverRuns | src/CommandSystem.cpp:41-47 | a later entry whose name an earlier entry already has never runs |
| CommandTable.UppercaseNameNeverRuns | src/CommandSystem.cpp:25-42 | an entry whose name has an upper-case letter never runs, because only the message is lower-cased |
| CommandTable.AddingShadowedNameChangesNothing | src/CommandSystem.cpp:11-21 | registering a name that is already present changes the outcome of no message |
| CommandTable.AddedCommandRuns | src/CommandSystem.cpp:11-21 | a new name registered into a table with room runs from the new last slot for every message that normalises to it |
| CommandTable.HelpLine | src/CommandSystem.cpp:60 | an entry's line starts with its name in backticks, ends with a newline, and is 6 characters longer than name and description together |
| CommandTable.HelpText | src/CommandSystem.cpp:56-69 | the help text starts with the header and ends with the tips |
| CommandTable.HelpLinesAppend | src/CommandSystem.cpp:59-61 | the help lines of two tables put together are the lines of the first followed by those of the second |
| CommandTable.HelpLinesSplit | src/CommandSystem.cpp:59-61 | the help lines are those of the entries before `i`, then entry `i`'s line, then those after it |
| CommandTable.HelpLineAt | src/CommandSystem.cpp:56-69 | entry `i`'s line `` `name` - description `` sits in the help text just after the header and the lines of entries `0..i-1` |
| CommandSystem.NormalizeCommand | src/CommandSystem.cpp:24-31 | the in-place rewriting of the local copy yields the normalised command |
| CommandSystem.CommandSystem.constructor | src/CommandSystem.cpp:9 | a 20-slot array, with no entry in use |
| CommandSystem.CommandSystem.AddCommand | src/CommandSystem.cpp:11-21 | on a full table returns false and changes nothing; otherwise writes the entry into slot `commandCount`, leaves every other slot alone, counts one more and returns true; the table becomes `Appended` |
| CommandSystem.CommandSystem.ExecuteCommand | src/CommandSystem.cpp:23-54 | the index scan with `break` gives exactly `Execute` on the registered entries |
| CommandSystem.CommandSystem.GetHelpText | src/CommandSystem.cpp:56-69 | header, one line per registered entry in index order and nothing for unused slots, then the tips |
| LedModel.Initial | src/NeoPixelManager.cpp:6-12 | the constructed LED satisfies the invariant, with rainbow mode on, enabled and step 0 |
| LedModel.SetColor | src/NeoPixelManager.cpp:59-64 | a static colour: enabled, rainbow mode off, the pixel set to the colour; step and frame time kept; invariant kept |
| LedModel.SetRainbowMode | src/NeoPixelManager.cpp:66-71 | the mode becomes the argument, switching it on also enables the LED, and the pixel, step and frame time are kept; invariant kept |
| LedModel.SetEnabled | src/NeoPixelManager.cpp:73-80 | `enabled` becomes the argument; off also stops the animation and blanks the pixel; on keeps mode and pixel; invariant kept |
| LedModel.FlashColor | src/NeoPixelManager.cpp:82-96 | both flags end as they were, the pixel keeps the flash colour, step and frame time are kept; invariant kept |
| LedModel.Update | src/NeoPixelManager.cpp:36-57 | the state changes exactly when a frame is due; the flags never change; a frame advances the step modulo 256 and records the second clock reading; invariant kept |
| LedModel.ApplyKeepsInv | src/NeoPixelManager.cpp:36-96 | every operation keeps `rainbowMode ==> enabled` and the step below 256 |
| LedModel.InvAlways | src/NeoPixelManager.cpp:36-96 | the invariant holds after any sequence of operations |
| LedModel.InvFromConstruction | src/NeoPixelManager.cpp:6-12 | the invariant holds from construction on |
| LedModel.UpdateFrame | src/NeoPixelManager.cpp:36-57 | `update` changes the state exactly when enabled, animating and at least 50 ms have passed; a frame shows hue `step*256`, advances the step modulo 256 and records the second clock reading |
| LedModel.UpdateRateLimited | src/NeoPixelManager.cpp:43-49 | less than 50 ms after a frame, `update` changes nothing, whatever the second clock reading |
| LedModel.OnlyUpdateAnimates | src/NeoPixelManager.cpp:36-96 | no setter moves the step or the frame time, and `update` never moves the flags |
| LedModel.StepCountsFrames | src/NeoPixelManager.cpp:48 | over any sequence of calls the step advances by the number of frames drawn, modulo 256 |
| LedModel.FlashRestoresMode | src/NeoPixelManager.cpp:82-96 | `flashColor` keeps `enabled`, restores the mode it found, and leaves the flash colour in the pixel |
| LedModel.FlashWhileDisabled | src/NeoPixelManager.cpp:82-96 | a flash on a disabled LED lights the pixel while `enabled` stays false |
| LedModel.TurnOffForgets | src/NeoPixelManager.cpp:73-80 | switching off is idempotent, clears both flags, blanks the pixel, and `update` changes nothing afterwards |
| LedModel.ReenableStaysStatic | src/NeoPixelManager.cpp:73-80 | enabling after a switch-off does not resume the animation |
| NeoPixel.NeoPixelManager.constructor | src/NeoPixelManager.cpp:6-12 | rainbow mode on, enabled, step 0, time 0, pixel blank |
| NeoPixel.NeoPixelManager.Update | src/NeoPixelManager.cpp:36-57 | the new state is `LedModel.Update` of the old one, and the invariant is kept |
| NeoPixel.NeoPixelManager.SetColor | src/NeoPixelManager.cpp:59-64 | static colour, enabled, pixel set; invariant kept |
| NeoPixel.NeoPixelManager.SetRainbowMode | src/NeoPixelManager.cpp:66-71 | on sets both flags; off clears only the mode; invariant kept |
| NeoPixel.NeoPixelManager.SetEnabled | src/NeoPixelManager.cpp:73-80 | off also clears the mode and blanks the pixel; on changes nothing else; invariant kept |
| NeoPixel.NeoPixelManager.FlashColor | src/NeoPixelManager.cpp:82-96 | the state becomes `LedModel.FlashColor` of the old one; invariant kept |
| NeoPixel.NeoPixelManager.IsEnabled | include/NeoPixelManager.h:34 | returns the `enabled` flag, which is true whenever rainbow mode is on |
| NeoPixel.NeoPixelManager.IsRainbowMode | include/NeoPixelManager.h:35 | returns the `rainbowMode` flag, which is never true while the LED is disabled |
| NeoPixel.NeoPixelManager.SetRed | include/NeoPixelManager.h:38 | `setColor(255, 0, 0)` |
| NeoPixel.NeoPixelManager.SetGreen | include/NeoPixelManager.h:39 | `setColor(0, 255, 0)` |
| NeoPixel.NeoPixelManager.SetBlue | include/NeoPixelManager.h:40 | `setColor(0, 0, 255)` |
| NeoPixel.NeoPixelManager.SetWhite | include/NeoPixelManager.h:41 | `setColor(255, 255, 255)` |
| NeoPixel.NeoPixelManager.TurnOff | include/NeoPixelManager.h:42 | `setEnabled(false)` |
| PollModel.MessagesUrl | src/DiscordClient.cpp:23 | the send URL is the API base, then the channel id, then `/messages` |
| PollModel.PollUrl | src/DiscordClient.cpp:67 | the poll URL starts with the API base and ends with `?limit=1` |
| PollModel.PollDue | src/DiscordClient.cpp:16 | due never when the clock equals the last poll time; the plain difference decides without a wrap, and `now + 2^32 - last` after one |
| PollModel.Decide | src/DiscordClient.cpp:80-112 | an HTTP error exactly for a status other than 200; a parse failure exactly for status 200 with an undecodable body; a forwarded id is new, non-empty and taken from the response |
| PollModel.Remembered | src/DiscordClient.cpp:94-97 | the remembered id is the old one unless the poll forwarded, and then it is the forwarded id |
| PollModel.ForwardIff | src/DiscordClient.cpp:80-97 | a poll forwards exactly when the status is 200, the body is a non-empty array, and element 0 has a new, non-empty id and a non-bot author; it forwards element 0's content |
| PollModel.RememberedOnlyOnForward | src/DiscordClient.cpp:94-111 | only a forward replaces the remembered id, and an id once remembered is never replaced by an empty one |
| PollModel.ConsecutiveDuplicateForwardedOnce | src/DiscordClient.cpp:94-100 | two consecutive polls whose latest message has the same id forward it at most once |
| PollModel.DropsKeepRemembered | src/DiscordClient.cpp:80-97 | a run of polls that each forward nothing leaves the remembered id unchanged |
| PollModel.ForwardedOnceAcrossDrops | src/DiscordClient.cpp:94-100 | a forwarded message is not forwarded again when it is still the latest, however many polls that forward nothing came in between |
| PollModel.AuthorIdIgnored | src/DiscordClient.cpp:94 | the author's id plays no part in the decision |
| PollModel.SingleSlotMemory | src/DiscordClient.cpp:94-97 | only the last forwarded id is remembered: ids `a`, `b`, `a` in turn forward `a` twice |
| PollModel.PollSpacing | src/DiscordClient.cpp:15-20 | a poll is due exactly when at least 10000 ms have passed since the last, also across a counter wrap |
| PollModel.FirstPoll | src/DiscordClient.cpp:8 | starting from `lastPollTime` 0, the first poll waits until the clock reads 10000 |
| PollModel.PollUrlExtendsSendUrl | src/DiscordClient.cpp:23-67 | the poll URL is the send URL `api + channel + "/messages"` followed by `"?limit=1"` |
| Discord.DiscordClient.constructor | src/DiscordClient.cpp:8 | last poll time 0, no message remembered |
| Discord.DiscordClient.Update | src/DiscordClient.cpp:15-20 | polls exactly when due, and then records the second clock reading; otherwise changes nothing |
| Discord.DiscordClient.SendMessage | src/DiscordClient.cpp:22-64 | POSTs `{content: message}` to `api + channel + "/messages"` and returns true exactly for status 200 or 201 |
| Discord.DiscordClient.PollMessages | src/DiscordClient.cpp:66-115 | GETs the poll URL; the decision is `Decide` on the remembered id and the response, and the remembered id becomes `Remembered` |
| Discord.DiscordClient.ParseMessage | src/DiscordClient.cpp:117-137 | fails exactly on a decoding error or an empty array; otherwise returns the four fields of element 0 |
| BotCommands.Effect | src/CommandSystem.cpp:81-126 | `status` and `help` leave the LED alone; `off` disables it, stops the animation and blanks the pixel; `rainbow` and the colour bodies end enabled, while the PC flashes keep `enabled` as it was; invariant kept |
| BotCommands.EffectKeepsInv | src/CommandSystem.cpp:81-126 | no command body breaks the LED invariant |
| BotCommands.RainbowCommandAnimates | src/CommandSystem.cpp:91-96 | `rainbow` always ends animating and enabled; its `setEnabled(true)` adds nothing |
| BotCommands.PcCommandsKeepMode | src/CommandSystem.cpp:81-89 | `turn_on`/`turn_off` keep both flags and leave green/red in the pixel |
| BotCommands.Perform | src/CommandSystem.cpp:81-126 | each body's LED calls move the LED state to `Effect` of the old one |
| BotCommands.ProcessNewMessage | src/DiscordClient.cpp:139-142 | a forwarded message's outcome is `Execute` on the table, and the LED changes only by the selected body's effect |
| BotCommands.SystemTable | src/SystemManager.cpp:64-73 | the registration list is non-empty, fits the 20-slot table, and every name is non-empty |
| BotCommands.SystemTableFits | src/SystemManager.cpp:64-73 | all ten registrations fit in the table, in order |
| BotCommands.SystemNamesCanonical | src/SystemManager.cpp:64-73 | the ten names are lower-case, free of surrounding space and slash, and distinct |
| BotCommands.SystemCommandReachable | src/SystemManager.cpp:64-73 | every registered command runs its own body for any case spelling, with or without `/`, with whitespace around it |

## Left out

- Transport: HTTP and TLS (`HTTPClient`, `WiFiClientSecure`, `setInsecure`, headers, timeouts) are I/O. The response is an argument of the model.
- Logging: all `Serial` output is left out, because it has no effect on state.
- JSON: the ArduinoJson encoder and decoder are a foreign library. Only the
  decoder's outcome is modelled: a failure, or an array of records.
  - A body that decodes to something other than an array (an object, or
    `null`) is not represented.
  - A record whose fields are missing is not represented either. The library
    would return its default conversions for them.
- NeoPixel hardware: `begin()` (pin setup, the red test flash, brightness)
  and `strip.show()` are hardware I/O. The pixel buffer holds the colour a
  later `show()` would display.
- Colour conversion: `ColorHSV` is library code. A rainbow frame's pixel is
  kept symbolic as `Hue(step * 256)`.
- NeoPixel.NeoPixelManager.FlashColor: the blocking `delay(duration)` is not
  modelled, so `duration` has no effect. No other code can run during the
  flash on this single-threaded device.
- Command replies: the chat replies that the command bodies send (status text,
  confirmations, the help text) are left out because they are fixed strings.
  `BotCommands.Effect` keeps only each body's LED effect.
  - The dispatcher's own unknown-command reply and the help text are modelled.
- SystemManager: start-up, the WiFi join loop and `isOnline` are bootstrap and
  I/O, and are left out. Its registration list is used only as the fixture
  `BotCommands.SystemTable`.
- Unicode: `toLowerCase` and `trim` are modelled on ASCII only. Case folding
  and whitespace outside ASCII are left out. Strings are sequences of code
  points; an ASCII-only classification gives the same result on the code
  points as on their UTF-8 bytes.
- ParseMessage: what the outputs hold after a failure is not stated. The
  caller never reads them.
