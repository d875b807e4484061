# G13 keypad engine, modelled in Dafny

This project models the binding and dispatch engine of g13d, the userspace
driver for the Logitech G13 gameboard. It also models the text and
bit-level utilities that engine relies on.

**The device side.**
- A `Device` owns a map of named profiles. Each `Profile` holds a fixed
  table of 40 key slots.
- An 8-byte USB report is decoded slot by slot: slot *i* reads bit
  `1 << (i % 8)` of byte `3 + i / 8`.
- A slot's action fires only when its bit differs from the state last
  recorded in the device's key array.
- Actions are values:
  - a `KeyAction` sends a chord, and an optional release chord;
  - a `CommandAction` resubmits a command line to the interpreter;
  - a `PipeOutAction` writes a line to the output pipe.
- The joystick (`Stick`) is a five-mode state machine over a list of
  named `StickZone`s. Each zone fires its action while the stick is
  inside it, and releases once on the way out.

**The command interpreter.** `Command` tokenizes a line and dispatches it
to its handler. The handlers are:

| verb | what it does |
|---|---|
| `out` | write text to the screen |
| `pos` | set the text cursor |
| `bind` | bind a key or a stick zone to an action |
| `profile` | switch profiles, forking a new one |
| `font` | switch fonts |
| `mod` | set the mode LEDs |
| `textmode` | set the text mode |
| `rgb` | set the key colour |
| `stickmode` | set the stick mode |
| `stickzone` | add, bind, bound or remove one zone |
| `dump` | print the device state |
| `log_level` | set the log level |
| `refresh` | send the image to the screen |
| `clear` | blank the image and send it |
| `delete` | remove profiles, unbind keys or remove zones by glob |
| `load` | run a file of commands |

`ReadCommandsFromFile` keeps a stack of the files being loaded, and so
refuses to load a file recursively. `ProcessBuffer` frames the text read
from the input pipe into lines.

**The utilities.**
- Two glob-to-regex translators: the current one of `utilities.cpp` and
  the older one of `helper.cpp`.
- Two tokenizers: `extract_and_advance_token` and `advance_ws`.
- The trims and `split`.
- Two escaping string formatters.
- The LCD buffer arithmetic: the text cursor, glyph copies, and the
  960-byte image framed into a 992-byte packet. Also the glyph
  transposition of `SetCharacter`.

**Modules.** One file per module: `Wrappers`, `Text`, `Formatter`, `Keys`,
`Actions`, `Glob`, `Profiles`, `Sticks`, `Screens` and `Devices`.

**Classes.** Objects the driver updates in place are Dafny classes with
`modifies` frames. These are `Profile`, `StickZone`, `Stick`, `FontChar`,
`Font`, `Screen` and `Device`, plus `LoadStack` for the files being
loaded.

**Values.** Immutable things are datatypes: `Key`, `KeyIndex`, `KeyState`,
`Action`, `Effect` and the bounds.

**Loops.** Each method that loops in the source is a `while` loop proved
equal to a specification function. The properties are proved about that
function.

**What the driver does to the outside world.** The model records it as
append-only sequences of the `Device`:
- `events`: uinput events;
- `pipeOut`: output-pipe writes;
- `log`: what the driver logs or prints;
- `control`: USB control transfers for the LEDs and the colour;
- `Screen.sent`: LCD packets.

**Functions the model takes as given.** These are immutable fields of
`Device`, fixed at construction:
- the Linux key-name table;
- the files that open and their lines, and the strerror text for a file that does not;
- path normalisation;
- regex compilation and matching;
- stick normalisation;
- `strtol` and `strtod`;
- how a stream writes a double.

**Actions and the interpreter.** An action's `act` returns an `Effect`.
The device carries that effect out, and a resubmitted command runs
through `Command` again. The recursion from `Command` through `load` back
to `Command` terminates by the number of files not yet on the load stack.

**Pointer semantics.** The source passes `const char*` cursors around. A
cursor is modelled as a position in a string; any byte outside the string
reads as NUL. `extract_and_advance_token` adds `tellg()` to the cursor.
When no delimiter is found, `tellg()` is -1 after end of file, so the
cursor moves back one byte. The model keeps this, and so `bind G1`
re-reads the key name as its action (`Devices.BindSingleArgument`).

**The `char` type.** The driver's `char` is signed. This matters in two
places: the escape of high bytes, and the 128-or-above check of the old
formatter.

## Model

| member | source | states |
|---|---|---|
| Text.CString | src/utilities.cpp:80-96 | the C string at a cursor is every byte up to the first NUL: it holds no NUL and is followed by one |
| Text.Span | src/helper.cpp:62-64 | strspn: the address after the longest run of bytes from the set, the byte there being NUL or outside it |
| Text.CSpan | include/helper.hpp:123-129 | strcspn: the address before the first stop byte or NUL, every byte before it being neither |
| Text.LeftTrim | src/utilities.cpp:62-69 | left_trim skips exactly the spaces and tabs at the cursor and stops at the first other byte |
| Text.Ltrim | include/helper.hpp:119-121 | ltrim skips every byte of the given whitespace set and only those, stopping at NUL or the first byte outside it |
| Text.AdvanceWs | src/helper.cpp:66-72 | the specification of advance_ws: skip blanks, take the word up to a blank, '#' or NUL, and leave the source past its delimiter or empty; its meaning is AdvanceWsExact's contract |
| Text.AdvanceWsExact | include/helper.hpp:123-129 | the blanks before the word are skipped and the word starts at a non-blank; the token is the whole word, each byte free of blank, tab, '#' and NUL, and ends at one of them; the source is then empty at NUL or '#', and otherwise the C string just past the blank |
| Text.AdvanceWsToken | include/helper.hpp:123-129 | the word advance_ws copies holds no blank, tab, '#' or NUL |
| Text.AdvanceWsRest | src/helper.cpp:66-72 | what advance_ws leaves is empty (token ended at '#' or the end) or a proper suffix of the advanced string |
| Text.TokenLength | src/utilities.cpp:86-91 | the token runs to the first ' ', '#' or NUL, and no further |
| Text.ExtractToken | src/utilities.cpp:80-96 | the token is the bytes at the cursor, none of them ' ', '#' or NUL, and the cursor ends one past its delimiter or one byte before where it started |
| Text.ExtractAndAdvanceToken | src/utilities.cpp:80-96 | the character loop returns the token and the moved cursor of the specification ExtractToken |
| Text.ExtractTokenWord | src/utilities.cpp:86-91 | the token holds no ' ', '#' or NUL and is a prefix of the C string at the cursor |
| Text.ExtractTokenAtDelimiter | src/utilities.cpp:86-94 | a delimiter right at the cursor gives an empty token (no whitespace skipping) and steps over it |
| Text.ExtractTokenAtEnd | src/utilities.cpp:94 | running off the end of the string leaves the cursor one byte before where it started |
| Text.FirstOf | include/helper.hpp:187-205 | find_first_of: the first delimiter position at or after from, or the end |
| Text.FirstNotOf | include/helper.hpp:192-197 | find_first_not_of: the first non-delimiter position at or after from, or the end |
| Text.SplitKeepEmptiesPieces | include/helper.hpp:187-205 | split with empties_ok yields one more piece than there are delimiters, and no piece holds a delimiter |
| Text.SplitKeepEmpties | include/helper.hpp:187-205 | split with empties_ok always yields at least one piece |
| Text.SplitNoEmpties | include/helper.hpp:192-197 | split with no_empties never yields an empty piece |
| Text.Split | include/helper.hpp:187-205 | split dispatches on its mode to the two loops; their properties are SplitKeepEmptiesPieces, SplitJoin, SplitNoEmptiesPieces and SplitNoEmptiesContents |
| Text.SplitJoin | include/helper.hpp:187-205 | splitting on one separator and joining with it gives the string back |
| Text.SplitNoEmptiesPieces | include/helper.hpp:192-197 | split with no_empties never yields an empty piece, and no piece holds a delimiter |
| Text.SplitNoEmptiesContents | include/helper.hpp:192-197 | the no_empties pieces, concatenated, are exactly the non-delimiter bytes in order |
| Formatter.Escape | src/Utils/StringFormatter.cpp:18-37 | each byte becomes 1, 2 or 4 characters; exactly printable ASCII other than \\, ' and " is copied as is; every escape starts with a backslash |
| Formatter.EscapeAll | src/Utils/StringFormatter.cpp:14-41 | the escaped body is between one and four times as long as the string |
| Formatter.Format | src/Utils/StringFormatter.cpp:15-40 | the output starts and ends with a double quote and the body between them is the escaped string |
| Formatter.WriteOn | src/Utils/StringFormatter.cpp:14-41 | the byte loop of write_on produces Format of the string |
| Formatter.UnescapeHex | src/Utils/StringFormatter.cpp:31-34 | a byte written as \x and two hex digits of its unsigned value reads back as that byte |
| Formatter.EscapeRoundTrip | src/Utils/StringFormatter.cpp:14-41 | escaping loses nothing: the escaped body reads back as the original bytes |
| Formatter.EscapeAllNoBareQuote | src/Utils/StringFormatter.cpp:26-29 | every double quote in the body is preceded by a backslash, so the output is one string literal |
| Formatter.EscapeAllPrintable | src/Utils/StringFormatter.cpp:18-37 | every character of the body is printable ASCII |
| Formatter.LegacyWriteOn | src/helper.cpp:9-47 | the older cursor loop wraps the legacy per-byte encoding in double quotes |
| Formatter.LegacyEscape | src/helper.cpp:34-41 | a byte in the older encoding is itself, or a 2- or 4-character backslash escape |
| Formatter.LegacyUnescapeOne | src/helper.cpp:34-41 | a byte in the older encoding (low nibble, then high nibble, after '0') reads back as that byte |
| Formatter.LegacyRoundTrip | src/helper.cpp:9-47 | the older encoding is lossless too, despite its swapped nibble order |
| Formatter.FormattersDiffer | src/helper.cpp:34-41 | the two formatters differ: ESC is \x1b against \x;1, and byte 200 is \xc8 against the raw byte |
| Formatter.EscapeAllSnoc | src/Utils/StringFormatter.cpp:14-41 | escaping is a concatenation: one more byte appends that byte's escape |
| Keys.KeyCount | include/Assets/key_tables.hpp:15-27 | KEY_STRINGS names exactly NUM_KEYS (40) keys |
| Keys.KeyStringsDistinct | include/Assets/key_tables.hpp:15-27 | no G13 key name is listed twice |
| Keys.MakeKeyIndex | include/Objects/Key.hpp:25-31 | a KeyIndex keeps its index, and its offset and mask fit in a byte |
| Keys.KeyIndexLayout | include/Objects/Key.hpp:30 | for each of the 40 keys the offset is i/8 (below 5, so only report bytes 3..7 are read) and the mask is the single bit i%8 |
| Keys.KeyIndexInjective | include/Objects/Key.hpp:30 | different keys are read from different (offset, mask) bits |
| Keys.G13Tables | src/Objects/Key.cpp:143-148 | name_to_key holds exactly the KEY_STRINGS names, each mapped to its position; key_to_name holds 0..39 and the two maps are inverse |
| Keys.InitKeynames | src/Objects/Key.cpp:143-148 | the registration loop over KEY_STRINGS builds exactly those two maps |
| Keys.FindOrThrow | include/helper.hpp:44-60 | find_or_throw gives the mapped value when the key is present and the not-found error exactly when it is absent |
| Keys.FindG13KeyValue | src/Objects/Key.cpp:57-63 | the index of a G13 key name is its position in KEY_STRINGS, and BAD_KEY_VALUE exactly for unknown names |
| Keys.FindG13KeyName | src/Objects/Key.cpp:95-102 | a G13 key index names its KEY_STRINGS entry, any other value "(unknown G13 key)" |
| Keys.FindInputKeyName | src/Objects/Key.cpp:86-93 | a Linux key code names its table entry, any other value "(unknown linux key)" |
| Keys.DefaultKeyState | src/Objects/KeyState.cpp:8-15 | the KeyState constructor stores the code unchanged, and its default direction is down |
| Keys.IsDownIgnoresDirection | src/Objects/KeyState.cpp:17-19 | is_down is true exactly for a non-zero code and never reads the direction, so BAD_KEY_VALUE reads as down |
| Keys.FindInputKeyValuePrefixes | src/Objects/Key.cpp:65-84 | one leading '-' is stripped and flips the direction, then "KEY_" is stripped: A, KEY_A, -A and -KEY_A resolve, KEY_-A does not |
| Keys.FindInputKeyValueUnknown | src/Objects/Key.cpp:65-84 | a name that is unknown with or without its prefixes resolves to BAD_KEY_VALUE |
| Keys.FindInputKeyValue | src/Objects/Key.cpp:65-84 | the key found is a code of the Linux key table, or the default state of BAD_KEY_VALUE |
| Actions.ScanKeys | src/Objects/KeyAction.cpp:16-24 | a '+'-chord resolves entry by entry in order, and fails exactly when some entry is unknown |
| Actions.ScanKeysFailurePrefix | src/Objects/KeyAction.cpp:16-24 | the first unknown entry throws: a failing prefix makes the whole scan fail the same way |
| Actions.Scan | src/Objects/KeyAction.cpp:16-24 | the scan loop that push_backs each resolved entry computes ScanKeys of the '+'-pieces |
| Actions.NewKeyAction | src/Objects/KeyAction.cpp:15-33 | the constructor builds the KeyAction the chord specification describes, or its error |
| Actions.ParseKeyActionFields | src/Objects/KeyAction.cpp:15-33 | field 0 split on '+' is the primary chord in order; a release chord exists iff there is a second field; every entry is a known key |
| Actions.SendKeysLoop | src/Objects/KeyAction.cpp:46-53 | the send_keys loop computes SendKeys: each entry in order, a key already down released first |
| Actions.ReleaseKeysLoop | src/Objects/KeyAction.cpp:55-61 | the release_keys loop computes ReleaseKeys: entries from last to first, each released if down |
| Actions.KeyActionAct | src/Objects/KeyAction.cpp:37-77 | act starts from an all-up table on every call and emits ActEvents of the chords and the direction |
| Actions.Act | src/Objects/CommandAction.cpp:15-19 | act of each action kind: key events always, a resubmitted command or a pipe write on press only, nothing on release |
| Actions.SendKeysTable | src/Objects/KeyAction.cpp:40-53 | send_keys keeps the down table equal to the replay of its events and never presses a key that is already down |
| Actions.ReleaseKeysEffect | src/Objects/KeyAction.cpp:55-61 | release_keys only releases, only chord keys that were down, each at most once, and leaves every chord key up |
| Actions.ReleaseKeysCovers | src/Objects/KeyAction.cpp:55-61 | every chord key that was down is released |
| Actions.PressDownsAreChord | src/Objects/KeyAction.cpp:46-53 | the presses send_keys adds are exactly the chord's pressed entries, in order |
| Actions.SendKeysCodes | src/Objects/KeyAction.cpp:46-53 | send_keys only emits events for keys of its chord |
| Actions.ActCases | src/Objects/KeyAction.cpp:63-76 | press with a release chord leaves no primary key down; press without one presses exactly the chord; release without one releases every non-zero chord key exactly once and nothing else, in reverse order of each key's last entry; release with one touches only release-chord keys |
| Actions.ActReleaseNoChord | src/Objects/KeyAction.cpp:67-71 | a release without a release chord sends only ups, of non-zero chord keys, each key exactly once, in reverse order of its last entry in the chord |
| Actions.MarkKeysCodes | src/Objects/KeyAction.cpp:68-69 | the marking loop leaves exactly the chord's non-zero codes down, since is_down() is code != 0 |
| Actions.ReleaseKeysOrder | src/Objects/KeyAction.cpp:55-61 | release_keys releases the keys in reverse order of their last chord entry |
| Actions.ParseKeyAction | src/Objects/KeyAction.cpp:15-33 | the specification of the KeyAction constructor; its meaning is ParseKeyActionFields' and ScanKeys' contracts |
| Actions.SendKeys | src/Objects/KeyAction.cpp:46-53 | the specification of send_keys; SendKeysTable, PressDownsAreChord and SendKeysCodes state what it does |
| Actions.ReleaseKeys | src/Objects/KeyAction.cpp:55-61 | the specification of release_keys; ReleaseKeysEffect, ReleaseKeysCovers and ReleaseKeysOrder state what it does |
| Actions.ActEvents | src/Objects/KeyAction.cpp:37-77 | the specification of act's events; ActCases, ActReleaseNoChord and ActNoRepress state what they are |
| Actions.MakeActionSpec | src/Objects/Device.cpp:454-465 | the specification of MakeAction; MakeActionBehaviour states what it gives |
| Actions.ActNoRepress | src/Objects/KeyAction.cpp:38-53 | because each call starts from an empty table, no key is pressed twice without a release in between |
| Actions.ActExamples | src/Objects/KeyAction.cpp:63-76 | "KEY_A" presses and releases A; with release chord B a press taps A and a release taps B; a '-' entry still presses |
| Actions.MakeAction | src/Objects/Device.cpp:454-465 | MakeAction builds the action MakeActionSpec describes, with the constructors of the three kinds |
| Actions.MakeActionBehaviour | src/Objects/Device.cpp:454-465 | an empty string fails; '>' gives a pipe write of the rest plus a newline; '!' a command of the rest; anything else a KeyAction of the whole string |
| Actions.DumpKeyActionEntries | src/Objects/KeyAction.cpp:79-91 | dump names chord entries by Linux key name, and a '-' entry dumps without '-' because direction is read through is_down |
| Actions.DumpPipeOutShowsNewline | src/Objects/PipeOutAction.cpp:10-23 | a pipe action stores its text plus "\n", and its dump shows WRITE PIPE : and the escaped text ending in an escaped newline that reads back |
| Glob.NatToString | src/utilities.cpp:155-164 | the count written into a quantifier is a non-empty string of decimal digits |
| Glob.StarsEnd | src/utilities.cpp:133-139 | the "**" branch stops after every following '*' |
| Glob.WildRun | src/utilities.cpp:140-152 | the current run takes every following '?' and '*' |
| Glob.LegacyWildRun | src/helper.cpp:95-108 | the older run also stops in front of a "**", but always consumes at least its first wildcard |
| Glob.Wildcard | src/utilities.cpp:128-165 | the wildcard lambda always consumes input and stays within the glob |
| Glob.SetBody | src/utilities.cpp:168-191 | the current set body stops at its ']' or at the end of the glob |
| Glob.Set | src/helper.cpp:128-150 | the set lambda consumes the '[' and stays within the glob |
| Glob.Literal | src/utilities.cpp:225-234 | a literal always consumes its character, and its escape with it |
| Glob.Term | src/utilities.cpp:214-236 | one pass of the terms loop always consumes input and stays within the glob |
| Glob.Group | src/utilities.cpp:195-211 | the group lambda consumes the '{' and stays within the glob |
| Glob.GroupBody | src/utilities.cpp:195-211 | the alternatives never run past the end of the glob |
| Glob.LegacySetBody | src/helper.cpp:128-150 | the older set body never runs past the end of the glob |
| Glob.PlainTerms | src/utilities.cpp:214-236 | a run of ordinary characters is translated by the terms loop character by character, to the end of the glob |
| Glob.Terms | src/utilities.cpp:214-236 | the terms lambda stops at the end, or inside a group at ',' or '}', and makes progress otherwise |
| Glob.GroupBodyEnd | src/utilities.cpp:195-211 | the alternatives loop consumes the closing '}' when there is one |
| Glob.SkipStars | src/utilities.cpp:133-139 | the star-skipping loop computes StarsEnd |
| Glob.CountRun | src/utilities.cpp:140-152 | the current counting loop computes WildRun |
| Glob.LegacyCountRun | src/helper.cpp:95-108 | the older counting loop, with its break before "**", computes LegacyWildRun |
| Glob.WildcardStep | src/utilities.cpp:128-165 | the wildcard lambda appends Wildcard's output and moves the cursor to its end |
| Glob.SetBodyLoop | src/utilities.cpp:168-191 | the current set member loop appends SetBody |
| Glob.LegacySetBodyLoop | src/helper.cpp:128-150 | the older member loop appends LegacySetBody and consumes the ']' |
| Glob.SetStep | src/utilities.cpp:168-191 | the set lambda appends Set |
| Glob.GroupBodyLoop | src/utilities.cpp:195-211 | the alternatives loop appends GroupBody |
| Glob.GroupStep | src/utilities.cpp:195-211 | the group lambda appends Group |
| Glob.LiteralStep | src/utilities.cpp:225-234 | the literal branch appends Literal |
| Glob.TermStep | src/utilities.cpp:214-236 | one terms pass appends Term |
| Glob.TermsStep | src/utilities.cpp:214-236 | the terms lambda appends Terms |
| Glob.GlobToRegex | src/utilities.cpp:115-244 | glob_to_regex (and glob2regex, helper.cpp:76-201) compute Translate of the glob |
| Glob.Translate | src/utilities.cpp:115-244 | a translated glob starts with '^' and ends with '$'; its terms are the recursive specification GlobToRegex proves the loops equal to |
| Glob.Quote | src/utilities.cpp:225-234 | a literal is copied unchanged exactly when it is not one of $^+*?.=!\|\\()[]{} and gets a backslash otherwise |
| Glob.PlainTranslate | src/utilities.cpp:115-244 | a glob of ordinary characters becomes ^, its characters quoted one by one, and $ |
| Glob.QuoteAllIdentity | src/utilities.cpp:225-234 | quoting leaves a string without metacharacters untouched |
| Glob.QuoteAllLength | src/utilities.cpp:225-234 | quoting drops nothing and at most doubles the length |
| Glob.OneTerm | src/utilities.cpp:117-243 | a glob that is one term is that term between the ^ and $ anchors |
| Glob.QuestionMarkExample | src/utilities.cpp:140-164 | "?" becomes [^/]* in the current translator (any run) and [^/] in the older (one character) |
| Glob.StarExample | src/helper.cpp:111-125 | "*" becomes [^/]* in both translators |
| Glob.DoubleStarExample | src/utilities.cpp:133-139 | "**" becomes .* in both translators |
| Glob.ThreeQuestionMarksExample | src/utilities.cpp:155-164 | "???" becomes [^/]*{3} in the current translator and [^/]{3} in the older |
| Glob.QuestionStarExample | src/utilities.cpp:155-164 | "?*" becomes [^/]*+ in the current translator and [^/]+ in the older |
| Glob.GroupExample | src/utilities.cpp:195-211 | "{a,b}" becomes the alternation (a\|b) |
| Glob.NegatedSetExample | src/helper.cpp:128-150 | "[!a-z]" becomes [^a-z] in both translators |
| Glob.UnclosedSetExample | src/helper.cpp:128-150 | an unclosed set stays open in the current translator and is closed with ']' by the older |
| Glob.EscapedStarExample | src/utilities.cpp:225-234 | "\\*" is a literal star in the older translator; the current one keeps the backslash and escapes the star too, giving a starred literal backslash |
| Profiles.DisableKeys | src/Objects/Profile.cpp:33-37 | the disabling loop keeps the 40-slot table |
| Profiles.NonParsedSlots | include/Assets/key_tables.hpp:33-37 | NON_PARSED_KEYS names slots 22, 23, 36, 37, 38 and 39, UNDEF3 twice |
| Profiles.NonParsedAreKeys | include/Assets/key_tables.hpp:33-37 | every NON_PARSED_KEYS name is a G13 key, so FindKey never returns null there |
| Profiles.CreatedKeysLayout | src/Objects/Profile.cpp:27-31 | the creation loop gives exactly one fresh slot per KEY_STRINGS entry, slot i named KEY_STRINGS[i] with index i |
| Profiles.DisableKeysEffect | src/Objects/Profile.cpp:33-37 | the disabling loop clears exactly the parse flags of the named slots and changes nothing else |
| Profiles.InitialKeysLayout | src/Objects/Profile.cpp:22-38 | after _init_keys every slot is unbound and is read iff its name is not in NON_PARSED_KEYS |
| Profiles.NonParsedSlot | include/Assets/key_tables.hpp:33-37 | a slot's name is in NON_PARSED_KEYS exactly for slots 22, 23 and 36 to 39 |
| Profiles.UnreadSlots | src/Objects/Profile.cpp:33-37 | exactly slots 22, 23 and 36 to 39 are unread after _init_keys |
| Profiles.InitialKeysValid | src/Objects/Profile.cpp:22-38 | the table _init_keys builds is well formed with the parse flags of a valid profile |
| Profiles.FilterKeysMembers | src/Objects/Profile.cpp:67-75 | a name is listed iff a slot of that name is bound (or all are asked for) and matches |
| Profiles.SlotOfName | src/Objects/Key.cpp:57-63 | the index of a KEY_STRINGS name is its slot |
| Profiles.FilterKeysOrder | src/Objects/Profile.cpp:67-75 | the listed names come in strictly increasing slot order |
| Profiles.FilterSlotsOrder | src/Objects/Profile.cpp:70-73 | the filter keeps slot order under any numbering giving each slot its own index |
| Profiles.Profile.Init | src/Objects/Profile.cpp:13-16 | a new profile has the given name and exactly the slots _init_keys builds |
| Profiles.Profile.InitKeys | src/Objects/Profile.cpp:22-38 | _init_keys leaves the initial table, and the profile valid |
| Profiles.Profile.CreateKeys | src/Objects/Profile.cpp:27-31 | the creation loop fills the 40 fresh slots in KEY_STRINGS order |
| Profiles.Profile.DisableNonParsed | src/Objects/Profile.cpp:33-37 | the second loop looks each NON_PARSED_KEYS name up and clears its flag |
| Profiles.Profile.Fork | src/Objects/Profile.cpp:18-19 | a fork has the new name and the source's slots (names, indices, flags and bindings); being a copy, later rebinding does not reach the source |
| Profiles.Profile.FindKey | src/Objects/Profile.cpp:60-65 | on a valid profile FindKey finds a slot iff the name is a G13 key name, and that slot carries the name |
| Profiles.Profile.SetAction | include/actionable.hpp:34 | set_action on one slot changes that slot's action and nothing else |
| Profiles.FilteredKeyNamesSpec | src/Objects/Profile.cpp:67-75 | FilteredKeyNames lists exactly the G13 names whose slot is kept, in slot order |
| Profiles.Profile.FilteredKeyNames | src/Objects/Profile.cpp:67-75 | FilteredKeyNames on the slot vector; FilteredKeyNamesSpec states which names it lists and their order |
| Profiles.FilterKeysSlots | src/Objects/Profile.cpp:67-75 | a slot's name is listed exactly when that slot is kept |
| Profiles.SameNameSameSlot | src/Objects/Profile.cpp:27-31 | no two slots share a name |
| Sticks.ExpandContains | include/helper.hpp:94-103 | after expand(p) the box contains p, whatever it was before |
| Sticks.ExpandMonotone | include/helper.hpp:90-103 | every point contained before expand is contained after it |
| Sticks.ExpandInside | include/helper.hpp:94-103 | expand by a point already inside changes nothing |
| Sticks.ExpandInverted | include/helper.hpp:90-103 | expanding the inverted box (255,255)-(0,0) by a byte point gives the one-point box, containing only that point |
| Sticks.StickBounds.Contains | include/helper.hpp:90-92 | contains, inclusive on all four edges; ExpandContains, ExpandMonotone and ExpandInside use it |
| Sticks.StickBounds.Expand | include/helper.hpp:94-103 | expand moves each corner coordinate out just far enough; ExpandContains, ExpandMonotone, ExpandInside and ExpandInverted state what it gives |
| Sticks.TestZone | src/Objects/StickZone.cpp:27-40 | test keeps the zone's bounds and action and fires at most one effect; TestZoneSpec states when |
| Sticks.StickZone.constructor | src/Objects/StickZone.cpp:11-15 | a new zone has the given name, bounds and action and is inactive |
| Sticks.StickZone.Test | src/Objects/StickZone.cpp:27-40 | test updates the zone and returns the effects TestZone gives |
| Sticks.StickZone.SetBounds | src/Objects/StickZone.cpp:42-44 | set_bounds replaces the bounds only |
| Sticks.StickZone.SetAction | include/actionable.hpp:34 | set_action replaces the action only |
| Sticks.TestZoneSpec | src/Objects/StickZone.cpp:27-40 | an unbound zone changes nothing; inside, a bound zone becomes active and presses on every call; outside it becomes inactive and releases only if it was active |
| Sticks.ReleaseOnce | src/Objects/StickZone.cpp:32-36 | leaving a zone releases once, and staying outside is silent afterwards |
| Sticks.TestAllStep | src/g13_stick.cpp:140-148 | testing one more zone appends its new state and its effects after those of the zones before it |
| Sticks.States | src/g13_stick.cpp:140-148 | the zone states test reads are those of the zone objects, one per zone in order |
| Sticks.FirstNamed | src/g13_stick.cpp:33-44 | the search finds the first zone of the name, or proves there is none |
| Sticks.FilterZonesSpec | src/g13_stick.cpp:46-55 | FilteredZoneNames lists exactly the matching zone names, and no more names than there are zones |
| Sticks.FilterZonesOrder | src/g13_stick.cpp:46-55 | with distinct zone names, the names are listed in the order of their zones |
| Sticks.RemoveNamedMembers | src/g13_stick.cpp:80-83 | RemoveZone keeps every zone of another name and no zone of that name (operator== compares names, StickZone.hpp:24-26) |
| Sticks.RemoveNamedAbsent | src/g13_stick.cpp:80-83 | removing an absent name changes nothing |
| Sticks.RemoveNamedDistinct | src/g13_stick.cpp:80-83 | removing zones keeps the remaining names distinct |
| Sticks.TestAllSpec | src/g13_stick.cpp:140-148 | testing every zone gives each zone the state TestZone gives it |
| Sticks.DirectionActionParses | src/g13_stick.cpp:27-30 | "KEY_<dir>" parses to the one-key chord of dir, pressed, with no release chord |
| Sticks.Stick.constructor | src/g13_stick.cpp:14-31 | bounds (0,0)-(255,255), centre (127,127), north (127,0), mode KEYS, and the four STICK_ zones with their rectangles and KEY_ actions |
| Sticks.Stick.Zone | src/g13_stick.cpp:33-44 | zone(n) returns the first zone named n, or null; with create an absent name appends a fresh unbound zero-area zone |
| Sticks.Stick.FilteredZoneNames | src/g13_stick.cpp:46-55 | the names listed are exactly the zone names that match, in the order of their zones when names are distinct |
| Sticks.Stick.SetMode | src/g13_stick.cpp:57-78 | the same mode is a no-op; entering CALBOUNDS resets the bounds to the inverted box; other changes only set the mode |
| Sticks.Stick.RemoveZone | src/g13_stick.cpp:80-83 | every zone of that name is erased, the others kept in order |
| Sticks.Stick.ParseJoystick | src/g13_stick.cpp:92-148 | the raw position is recorded; the calibration modes set the centre, set north or expand the bounds, and test no zone; ABSOLUTE hands on the raw axes; KEYS tests every zone in order at the normalised position |
| Sticks.Stick.MoveInKeys | src/g13_stick.cpp:116-148 | in KEYS mode the zones judge the normalised position |
| Sticks.Stick.TestZones | src/g13_stick.cpp:140-148 | the KEYS branch tests every zone in list order |
| Sticks.TestEach | src/g13_stick.cpp:140-148 | the zone loop gives each zone its TestZone state and collects the effects in order |
| Sticks.OthersAreOtherObjects | src/g13_stick.cpp:33-44 | zones with distinct names are distinct objects, so editing one zone leaves the others as they were |
| Screens.ScreenConstants | include/Objects/Screen.hpp:13-19 | the screen shows 960 bytes, image_buf has 968, a packet has 992, and there are 20 text rows |
| Screens.BitsDistinct | src/g13_font_char.cpp:14-24 | two single-bit masks overlap iff they are the same bit |
| Screens.ColumnBitsSpec | src/g13_font_char.cpp:14-24 | the rotation loop ORs bit x of data[y] into bit y of column x, for the rows it has visited |
| Screens.ColumnByteSpec | src/g13_font_char.cpp:14-24 | bit y of rotated column x is bit x of row y |
| Screens.SetCharacterSpec | src/g13_font_char.cpp:11-31 | below width: a copy, or with FF_ROTATE the transposition, and the inverted glyph is the complement; above width the regular bytes are 0 and the inverted ones keep their value |
| Screens.FontChar.constructor | src/g13_font_char.cpp:11-13 | a new glyph has both bitmaps zero |
| Screens.FontChar.SetCharacter | src/g13_font_char.cpp:11-31 | the memset, rotate or copy and invert loops leave the bitmaps SetCharacterSpec describes |
| Screens.Font.constructor | src/Objects/Font.cpp:10 | a font has its name, its width and 256 blank glyphs |
| Screens.Glyph | src/Objects/Screen.cpp:52-59 | WriteChar copies width bytes of the glyph |
| Screens.NextRow | src/Objects/Screen.cpp:44-46 | the row advance wraps at 20 text rows |
| Screens.MoveCol | src/Objects/Screen.cpp:42-47 | a column past the last one wraps to the start of the next row; the cursor stays on screen |
| Screens.Walk | src/Objects/Screen.cpp:62-86 | WriteString keeps col < 160 and row < 20 when they held before |
| Screens.ImageByteOffsetOfText | src/Objects/Screen.cpp:32-34 | image_byte_offset(row*8, col) of a text cell is col + row*160 |
| Screens.ImageByteOffset | src/Objects/Screen.cpp:32-34 | image_byte_offset in unsigned 32-bit arithmetic; ImageByteOffsetOfText states its value for a text cell |
| Screens.TextOffsetInjective | src/Objects/Screen.cpp:32-34 | different text cells start at different bytes |
| Screens.TextRowsThatFit | src/Objects/Screen.cpp:50-59 | a glyph fits the 968-byte buffer on rows 0..5, on row 6 only within its first 8 columns, and never below |
| Screens.AdvanceControls | src/Objects/Screen.cpp:65-79 | '\n' goes to column 0 of the next row; '\t' moves to one past the next multiple of 4, or wraps |
| Screens.PacketLayout | src/Objects/Screen.cpp:100-109 | the packet is 992 bytes: 0x03, 31 zero bytes, then the 960 image bytes |
| Screens.Screen.constructor | src/Objects/Screen.cpp:13 | a new screen has the cursor at the origin, text mode 0 and a zero image |
| Screens.Screen.SetTextMode | src/Objects/Screen.cpp:15-17 | setTextMode sets only the text mode |
| Screens.Screen.ImageClear | src/Objects/Screen.cpp:28-30 | image_clear zeroes the first 960 bytes and leaves the 8 spare bytes |
| Screens.Screen.ScreenWrite | src/Objects/Screen.cpp:100-109 | a size other than 960 sends nothing; 960 bytes send one framed packet |
| Screens.Screen.ImageSend | src/Objects/Screen.cpp:24-26 | image_send sends the shown 960 bytes as one packet |
| Screens.Screen.WritePos | src/Objects/Screen.cpp:88-97 | the row and column are stored in unsigned fields, and a column of 160 or more, a row of 20 or more, or a negative one resets to 0 |
| Screens.Screen.WriteChar | src/Objects/Screen.cpp:37-60 | the cursor advances by the font width with wrap, and the glyph (inverted in a non-zero text mode) is copied to the cell it was at when it fits the image |
| Screens.Screen.WriteString | src/Objects/Screen.cpp:62-86 | for any string, the cursor walks the whole string, the image is the string rendered from the old cursor, and the image is sent once |
| Screens.Screen.WriteNext | src/Objects/Screen.cpp:64-83 | one character of WriteString extends the walk and the rendering by that character |
| Screens.Screen.MoveCursor | src/Objects/Screen.cpp:65-79 | the newline and tab branches move the cursor as Advance says |
| Devices.KeyInputs | src/Objects/Device.cpp:264-271 | each key event of an action becomes one input event, in order |
| Devices.Messages | src/Objects/Device.cpp:693-720 | one log message per deleted name, in order |
| Devices.ToInt32 | src/Objects/Device.cpp:500-501 | static_cast<int> of a long keeps the value modulo 2^32 in the int range, and a value already in range unchanged |
| Devices.ToByte | src/Objects/Device.cpp:277-296 | a USB data byte keeps an int modulo 256 |
| Devices.LoadInfo | src/Objects/Device.cpp:724-727 | the info tag of a nested load is one '>' per file being loaded, plus one |
| Devices.IndexOf | src/Objects/Device.cpp:602-608 | the stickmode search finds the first position of the name, or proves it absent |
| Devices.StickModeByName | src/Objects/Device.cpp:597-610 | a name of the table gives the mode at its position, and any other name none |
| Devices.TokenOf | src/utilities.cpp:80-96 | a run of ordinary bytes is the token and the cursor moves past its delimiter, or back one byte at the end |
| Devices.BindArgumentCases | src/Objects/Device.cpp:512-523 | a first action token starting '!' or '>' takes the left-trimmed rest verbatim; otherwise a non-empty second token is joined after one space |
| Devices.RawActionStart | src/Objects/Device.cpp:514-519 | a raw action starts right at the cursor, and its first token is its prefix |
| Devices.BindOneToken | src/Objects/Device.cpp:512-523 | "bind G1 A" binds G1 to "A" |
| Devices.BindTwoTokens | src/Objects/Device.cpp:521-523 | "bind G2 A B" binds G2 to "A B" |
| Devices.BindCommandVerbatim | src/Objects/Device.cpp:518-520 | "bind G3 !a  b" keeps the command verbatim, inner spaces included |
| Devices.BindSingleArgument | src/Objects/Device.cpp:512-523 | "bind G1" re-reads the key name after the cursor moves back, giving the action " G1" |
| Devices.WithoutMembers | src/Objects/Device.cpp:707-713 | removing the zones of a list of names keeps exactly the zones whose names are not listed |
| Devices.RemoveStep | src/Objects/Device.cpp:708-712 | during delete zone the next listed zone is still there, so the zone lookup is never null |
| Devices.WithoutMatching | src/Objects/Device.cpp:707-713 | removing the matching names leaves exactly the zones that do not match |
| Devices.FilterZonesDistinct | src/g13_stick.cpp:46-55 | on a zone list with distinct names the matching names are distinct |
| Devices.UnbindFound | src/Objects/Device.cpp:700-706 | every name delete key lists finds its own slot, whose name it is |
| Devices.UnbindStep | src/Objects/Device.cpp:700-706 | each step of delete key unbinds one more listed name and no other slot |
| Devices.BudgetShrinks | src/Objects/Device.cpp:322-329 | pushing a file that opens and is not being loaded leaves fewer files to load, so nested loads terminate |
| Devices.ScanLinesSpec | src/Objects/Device.cpp:400-410 | every line found is non-empty, ends at a CR or LF, holds none, and the lines come in order, the tail holding no terminator |
| Devices.ScanLines | src/Objects/Device.cpp:400-410 | the specification of the line loop; ScanLinesSpec states which lines it finds |
| Devices.CutSnoc | src/Objects/Device.cpp:405 | each line found writes a NUL over its terminator |
| Devices.CutElsewhere | src/Objects/Device.cpp:402-410 | a byte that ends no line keeps its value |
| Devices.CutKeepsTail | src/Objects/Device.cpp:413-418 | the bytes after the last terminator are as they were read |
| Devices.ScanAdvance | src/Objects/Device.cpp:402-410 | one step of the line loop keeps the scan, the NULs and the order of the lines in step |
| Devices.SentSnoc | src/g13_stick.cpp:140-148 | one more fired effect appends its own events and pipe text after those of the effects before it |
| Devices.ParsedStateStep | src/Objects/Profile.cpp:51-58 | visiting slot i records its report bit if the slot is read, and leaves the other slots |
| Devices.Device.constructor | src/Objects/Device.cpp:28-45 | a "default" profile, every key up, a cleared image, the fonts 8x8 (current) and 5x8, a fresh stick, and empty sinks |
| Devices.Device.InitFonts | src/Objects/Device.cpp:469-478 | the 8-wide 8x8 font and the 5-wide 5x8 font |
| Devices.Device.UpdateKeyState | src/Objects/Device.cpp:136-141 | the new state is stored, and the result is true iff it differs from the old one |
| Devices.Device.SwitchToProfile | src/Objects/Device.cpp:441-452 | a known name becomes current and no profile changes; an unknown name adds a fork of the current profile under that name, which becomes current |
| Devices.Device.AddProfile | src/Objects/Device.cpp:446-449 | the fork is fresh, carries the current profile's slots and is added under its name |
| Devices.Device.SwitchToFont | src/Objects/Device.cpp:422-428 | the lookup inserts a null entry for an unknown name; only a real font becomes current |
| Devices.Device.FilteredProfileNames | src/Objects/Device.cpp:430-439 | the names listed are exactly the profile names the pattern matches, each once |
| Devices.Device.OutCommand | src/Objects/Device.cpp:493-495 | out logs the text, walks the cursor through all of it, renders it and sends the image once, whether or not every glyph fits |
| Devices.Device.PosCommand | src/Objects/Device.cpp:498-509 | pos with two integers and nothing after them sets the cursor (int cast, then WritePos); otherwise it logs "Bad pos" and leaves the cursor |
| Devices.Device.ModCommand | src/Objects/Device.cpp:556-566 | mod with one integer sends the LED control transfer with its low byte; otherwise it logs the bad format |
| Devices.Device.TextModeCommand | src/Objects/Device.cpp:569-579 | textmode with one integer sets the text mode; otherwise it logs the bad format |
| Devices.Device.RgbCommand | src/Objects/Device.cpp:582-594 | rgb with three integers sends the colour control transfer with their low bytes; otherwise it logs the bad format |
| Devices.Device.StickModeCommand | src/Objects/Device.cpp:597-610 | stickmode sets the mode named in the table by its position; an unknown name is logged and changes nothing |
| Devices.Device.DumpCommand | src/Objects/Device.cpp:650-665 | dump accepts all, current and summary and logs any other target |
| Devices.Device.ClearCommand | src/Objects/Device.cpp:679-682 | clear blanks the shown image and sends a zero packet |
| Devices.Device.RunRefresh | src/Objects/Device.cpp:673-676 | refresh sends the image once more, unchanged |
| Devices.Device.Bind | src/Objects/Device.cpp:525-540 | a key name is tried before a zone name; an unknown target or an action that fails to parse is logged and changes no binding; otherwise exactly that slot or zone gets the action |
| Devices.Device.BindSlot | src/Objects/Device.cpp:526-528 | binding a slot sets only that slot's action, or logs the failure and changes nothing |
| Devices.Device.BindZone | src/Objects/Device.cpp:529-535 | binding a zone sets only the first zone of the name, or logs why not and changes nothing |
| Devices.Device.BindCommandArguments | src/Objects/Device.cpp:513-523 | the token reads of bind compute BindArguments |
| Devices.Device.StickZoneCommand | src/Objects/Device.cpp:613-647 | add appends an unbound zone only for an absent name; other operations need the zone, and set its action or bounds or remove it, with an error for a missing zone or a bad action or bounds, and the "Setting bounds" line for good bounds |
| Devices.Device.StickZoneEdit | src/Objects/Device.cpp:620-646 | the non-add operations, as ZoneEdited says: a missing zone is an error; good bounds print "Setting bounds" with the four values |
| Devices.Device.EditFound | src/Objects/Device.cpp:625-645 | on the zone found: del removes the name, the others edit the zone, good bounds logging "Setting bounds" |
| Devices.Device.EditZone | src/Objects/Device.cpp:625-645 | action and bounds edit only that zone, a parse failure being an error; good bounds log "Setting bounds x1 y1 x2 y2"; an unknown operation is logged |
| Devices.BoundsMessage | src/Objects/Device.cpp:637 | the line printed for good bounds starts "Setting bounds " |
| Devices.Device.Matcher | src/Objects/Device.cpp:691 | the compiled pattern matches what std::regex_match of the pattern matches |
| Devices.Device.DeleteProfiles | src/Objects/Device.cpp:693-699 | every matching profile name is erased, nothing else in the map changes, and the current profile stays current |
| Devices.Device.DeleteKeys | src/Objects/Device.cpp:700-706 | exactly the bound slots of the current profile whose names match are unbound |
| Devices.Device.DeleteZones | src/Objects/Device.cpp:707-713 | exactly the zones whose names match are removed, the rest kept in order |
| Devices.Device.DeleteCommand | src/Objects/Device.cpp:685-721 | the glob is translated and compiled (a bad pattern is an error that changes nothing); then the deletion of the target is done and logged, "No … matches" when nothing matched |
| Devices.Device.DeleteMatching | src/Objects/Device.cpp:693-720 | the three targets and the unknown-target message, as Deleted says |
| Devices.Device.Command | src/Objects/Device.cpp:730-761 | an empty verb changes nothing but the log; otherwise the tagged announcement comes first in the log; an unknown verb logs "unknown command : " and the verb and changes nothing else |
| Devices.Device.Dispatch | src/Objects/Device.cpp:743-756 | an unknown verb is logged after the announcement and changes nothing else |
| Devices.Device.RunAnnounced | src/Objects/Device.cpp:744-756 | a known verb's handler runs after the announcement |
| Devices.Device.Run | src/Objects/Device.cpp:491-728 | the command table: each verb runs its handler, keeping the device valid and the load stack as it was |
| Devices.Device.RunDelete | src/Objects/Device.cpp:685-721 | the delete entry as Command runs it: DeleteCommand's outcome, its log lines, then "command failed : " and the error when the pattern does not compile |
| Devices.Device.RunStickZone | src/Objects/Device.cpp:613-647 | the stickzone entry as Command runs it: StickZoneCommand's outcome, its log lines, then "command failed : " and the error for a missing zone, a bad action or bad bounds |
| Devices.Device.StickZoneLogged | src/Objects/Device.cpp:757-760 | the stickzone outcome with its lines and its caught error appended to the log |
| Devices.Device.RunLoad | src/Objects/Device.cpp:724-727 | load reads the named file: a file already being loaded is logged as recursion, a file that does not open logs strerror, and nothing else changes in either case |
| Devices.Device.ReadCommandsFromFile | src/Objects/Device.cpp:318-353 | a normalised name already being loaded is logged and not opened; a file that does not open is logged; the load stack is restored on every path |
| Devices.Device.LoadFile | src/Objects/Device.cpp:329-352 | the file is pushed for the duration of its lines and popped afterwards |
| Devices.Device.RunLines | src/Objects/Device.cpp:350-352 | running the file's lines, in order, keeps what every command keeps, the load stack included |
| Devices.Device.Emit | src/Objects/Device.cpp:264-275 | key events go to uinput and pipe text to the output pipe, nothing else |
| Devices.Device.Fire | src/Objects/CommandAction.cpp:15-19 | an action's effect is carried out: events and pipe text sent, or the command run through Command with no info tag |
| Devices.Device.FireAll | src/g13_stick.cpp:140-148 | the zone effects fire in order, their events and pipe text appended in that order |
| Devices.Device.ParseKey | src/Objects/Key.cpp:42-49 | the report bit is recorded through updateKeyState whether or not the slot is bound; the action acts on the new state only when it changed and one is bound |
| Devices.Device.ParseKeys | src/Objects/Profile.cpp:51-58 | slots are visited in order from report byte 3, unread slots skipped; a report that changes no read slot sends nothing |
| Devices.Device.ParseNext | src/Objects/Profile.cpp:53-57 | one slot of the loop, if it is read |
| Devices.Device.HandleReport | src/Objects/Device.cpp:128-132 | a full report goes to the stick, then the keys, then SYN; a short report changes nothing |
| Devices.Device.ReadReport | src/Objects/Device.cpp:129-131 | the stick is parsed, then the current profile's keys |
| Devices.Device.SendSyn | src/Objects/Device.cpp:131 | one SYN_REPORT event is sent |
| Devices.Device.ReadStick | src/g13_stick.cpp:92-148 | ABSOLUTE sends the raw x then y axis; calibration sends nothing; KEYS sends the zones' effects in order |
| Devices.Device.Joystick | src/g13_stick.cpp:92-148 | what ParseJoystick hands on, by the mode it was in |
| Devices.Device.Deliver | src/g13_stick.cpp:140-148 | the axes as two ABS events, or the zones' effects fired in order |
| Devices.Device.SendAxes | src/g13_stick.cpp:140-143 | the x then the y axis are sent as ABS events |
| Devices.Device.ProcessBuffer | src/Objects/Device.cpp:393-420 | 960 bytes go to the screen unparsed, and nothing else changes; otherwise each non-empty CR/LF-ended line is cut with a NUL and run in order, and the tail becomes the fifo only if shorter than a pointer |
| Devices.Device.ShowImage | src/Objects/Device.cpp:395-398 | the 960 bytes go to the LCD as one packet |
| Devices.Device.ProcessLines | src/Objects/Device.cpp:400-418 | the text branch: the lines run, then the tail is kept only if shorter than sizeof(char*) |
| Devices.Device.SetFifo | src/Objects/Device.cpp:413-418 | input_pipe_fifo is cleared and assigned |
| Devices.Device.RunBufferLines | src/Objects/Device.cpp:401-410 | the line loop finds the lines ScanLines finds and cuts each |
| Devices.Device.ScanNext | src/Objects/Device.cpp:403-409 | one byte of the loop keeps the scan and the cuts in step |
| Devices.Device.RunIfLine | src/Objects/Device.cpp:404-407 | a NUL is written over the terminator exactly when the line is run |
| Devices.Device.RunCut | src/Objects/Device.cpp:405-406 | a NUL over the terminator, then the line from its start as a command: an empty one does nothing, any other is announced with the "command" tag, and an unknown verb is logged |

## Left out

**I/O and the environment**
- USB, uinput and FIFO plumbing (RegisterContext, Cleanup, G13CreateFifo, G13CreateUinput, MakePipeNames, SendEvent, OutputPipeWrite, SetModeLeds, SetKeyColor, IsDataAvailable, InitScreen, ReadCommandsFromPipe). These are libusb and POSIX calls. Their output is recorded as the append-only sinks `events`, `pipeOut`, `control` and `Screen.sent`, and their failures are not modelled.
- ReadDeviceInputs: the interrupt transfer and its error handling are libusb; only what happens to a full report is modelled (HandleReport).
- The connected and suspended flags, hotplug and the suspend thread: these are concurrent libusb and systemd glue.
- Process start-up, signals, the main loop and log4cpp configuration. The `log_level` command does nothing in the model.
- Logging: what the driver logs or prints is appended to `log` as text. Log levels and the DEBUG messages of bind and delete are not modelled.

**Foreign code, taken as parameters of Device**
- std::regex compilation and matching (`regexError`, `regexMatch`).
- std::filesystem normalisation in NormalizeFilePath (`normalizePath`).
- strtol and strtod (`strtol`, `strtod`), and how std::ostream writes a double (`formatDouble`), which the "Setting bounds" line of `stickzone bounds` uses.
- strerror(errno) after a file fails to open (`openError`); errno itself is not modelled.
- The floating-point stick normalisation of ParseJoystick (`normalizeStick`); it can also divide by zero. Zone bounds are `real`s, not doubles.
- The libevdev part of InitKeynames: the Linux key table is the given map `inputNameToKey`.
- The file system: the lines of each file that opens are the given map `files`, as std::getline reads them.

**Output-only code**
- Device::Dump, Profile::dump, Key::dump, Stick::dump, StickZone::dump and DisplayKeys write to a stream. The `dump` command only checks its target (DumpCommand).
- The CommandAction dump and the escaped PipeOutAction dump are modelled as strings.
- Font::InstallFont and the font tables font_basic_large and font_basic_small: the glyph data is not part of this model. InitFonts makes the two fonts with blank glyphs. The name, width and char_data getters of Font.cpp are fields.

**Older snapshots** of the same logic (src/device.cpp, src/g13_device.cpp, src/g13_keys.cpp and the rest): covered by the single model above. The snapshot helpers that are still used (helper.cpp's ltrim, advance_ws, glob2regex and write_on) are modelled.

**Contracts weaker than the source**
- Devices.Device.Command: for a known verb, the contract states the announcement and what every handler keeps: a valid device, only new objects, the load stack restored, and the sinks only growing. The effect of each verb is stated by its handler method (OutCommand, PosCommand, Bind, DeleteCommand and the others), not repeated here. The two handlers that throw, delete and stickzone, are wrapped by RunDelete and RunStickZone, which state the "command failed : " line the catch writes.
- Devices.Device.RunOut, RunPos, RunTextMode, RunClear, RunFont, RunBind, RunBindArguments, RunProfile, RunStickMode, RunMod, RunRgb, RunDump: these are the command-table entries of src/Objects/Device.cpp:493-683. Each one appends its handler's log lines and states only what every entry keeps; what the verb does is stated by the handler it calls (OutCommand, PosCommand, TextModeCommand, ClearCommand, SwitchToFont, BindCommandArguments with Bind, SwitchToProfile, StickModeCommand, ModCommand, RgbCommand, DumpCommand).
- Devices.Device.Run: states only what every handler keeps; it is the table that selects the handler.
- Devices.Device.RunLines: states only what every command keeps; each line's effect is Command's contract.
- Devices.Device.LoadFile: states that the pushed file is popped again and output only grows, not what the lines do.
- Devices.Device.ProcessBuffer: states which lines are found, the NULs written and the new fifo. Each line runs through Command, and the contract does not restate what those commands do.
- Devices.Device.ReadCommandsFromFile: the contract fixes the refused and unopened cases exactly. For a file that opens it states that the stack is restored and the sinks only grow, not each line's effect.
- Devices.Device.FireAll: the events and pipe text it sends are stated only when no effect resubmits a command. A resubmitted command may do anything a command does.
- Devices.Device.ReadStick: the same limit as FireAll, in KEYS mode.
- Devices.Device.ParseKeys: the sinks are stated to be unchanged only when no read slot changes. Otherwise the per-slot behaviour is ParseKey's contract.
- Devices.Device.Fire: a resubmitted command is stated to be announced only; the rest is Command's contract.
- Devices.Device.FilteredProfileNames: std::map order is not modelled, so the names come without an order guarantee.
- Devices.Device.RunAnnounced: states the announcement and what every handler keeps. That the handler of the verb then runs is the body's call to Run, whose contract is as weak as Run's.
- Devices.Device.RunLoad: the refused and unopened cases are exact. For a file that opens, the '>' tag one deeper than the load stack and the lines it announces are not stated, as for ReadCommandsFromFile.
- Devices.Device.RunCut: the line is stated to run as Command does for an empty line or an unknown verb, and to be announced otherwise. A known verb's effect is not stated, as for Command.
- Devices.Device.ProcessLines: states the lines found, the NULs and the fifo. That each line runs as a command is RunCut's contract, and what those commands do is not stated.
- Devices.Device.Deliver: the zones' effects are stated only when none of them resubmits a command, as for FireAll.
- Devices.Device.ReadReport: the stick's output before the key events is stated in ABSOLUTE mode, and a calibration mode with no key change is stated to send nothing. In KEYS mode the zones' effects and the key events are stated only through the key state `ParsedState` and Stepped(), as for ReadStick and ParseKeys.
- Devices.Device.HandleReport: the same limit as ReadReport, plus the trailing SYN_REPORT event.

**Modelling choices on order and memory**
- Devices.Device.ReadStick: in KEYS mode the zone effects are carried out after all zones are tested, in the order of the zones. In the source each act happens inside the loop. A command resubmitted by one zone therefore sees the zones after it already tested.
- Screens.Screen.WriteChar: a glyph that does not fit the 968-byte image (Screens.TextRowsThatFit shows that rows 7 to 19 never fit), or a character of 128 or more, is not drawn; the cursor still advances. A byte of 128 or more is a negative `char` whose char_data index leaves the 256 glyphs. The source writes out of bounds in both cases, and what that overwrites is not modelled.
- Screens.Screen.WriteString: every character moves the cursor and the image is always sent; glyphs are drawn as WriteChar draws them, so only the out-of-bounds writes are left out.
- Devices.Device.OutCommand: the same choice as WriteString.
- Text.CString: a cursor that has moved before the start of the string, as extract_and_advance_token's cursor can, reads a NUL there rather than whatever byte precedes the buffer.
- Devices.Device.ProcessBuffer: the buffer is an array of chars that the caller owns. The 1 MiB copy that ReadCommandsFromPipe makes of the fifo is not modelled.
- Profiles.Profile.Fork: the profile's back reference to its device is not modelled. An action is a value, so "sharing" a binding and copying it are the same.
