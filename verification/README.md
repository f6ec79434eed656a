# Onkyo custom input names: a Dafny model

This project models how the onkyo-ng integration discovers the names a user
gave to the inputs of an Onkyo AV receiver. A receiver answers input-rename
queries with reply tuples `(zone, command, value)`. The value of a rename reply
is a two-character input code followed by the custom name. An update callback
collects those names per code in a dictionary. After a final wait, the
collected codes are translated into the enumeration of known inputs, and
unknown codes are dropped. Display names are then built from each known
input's factory default meaning, overridden wherever a custom name is not
blank.

Modules:

- `Wrappers` (`wrappers.dfy`): the `Option` type.
- `PyStr` (`py_str.dfy`): Python's `str.strip()` without arguments, over an
  explicit whitespace predicate (the 29 characters Python's `str.isspace()`
  accepts), with its characterising lemmas.
- `RenameReply` (`rename_reply.dfy`): the update callback. `ParseRename` says
  what one reply tuple contributes. `ApplyReply` and `Received` describe the
  collected names as values. The class `RenameCollector` holds the dictionary
  that the callback fills in place; its `OnUpdate` method mirrors the
  callback's branches.
- `InputNames` (`input_names.dfy`): the known-input table, the loop mapping
  collected codes to known inputs, the seeding-and-override loop for display
  names, and the two top-level routines with their I/O turned into parameters.

The enumeration of known inputs is defined in a constants module that is not
part of this model. It is taken as a given table: a sequence of
`InputSource(code, meaning)` records with distinct codes. Looking up a code
(`InputSource(input_id)`) means finding the record with exactly that code.

A reply carrying only `(command, value)` is ignored, because the callback
needs at least three elements (input_name_helper.py:33);
`IgnoredReplyChangesNothing` covers that case, and `DenTvScenario` uses a
`(zone, command, value)` reply.

## Model

| member | source | states |
|---|---|---|
| `PyStr.StripEnds` | input_name_helper.py:43 | the stripped remainder is empty exactly when it is all whitespace; otherwise it neither starts nor ends with whitespace |
| `PyStr.StripUnique` | input_name_helper.py:43 | the stripped string is the one slice of the input bounded by whitespace runs on both sides, so its characters and their case are unchanged |
| `PyStr.StripIdempotent` | input_name_helper.py:43 | stripping an already stripped name changes nothing |
| `PyStr.StripPadding` | input_name_helper.py:43 | every string is its stripped form with whitespace padding before and after |
| `PyStr.StripOfPadded` | input_name_helper.py:43 | stripping a non-blank name padded with whitespace gives back exactly that name |
| `RenameReply.ParseRename` | input_name_helper.py:33-46 | a reply is accepted exactly when it has at least 3 elements, its command is the rename command, its value is a string of at least 2 characters and the rest is not all whitespace; the code is the value's first two characters |
| `RenameReply.WellFormedNameEnds` | input_name_helper.py:43-45 | a name equals its own strip and is non-empty exactly when it is non-empty and starts and ends with non-whitespace |
| `RenameReply.ParsedNameWellFormed` | input_name_helper.py:43-46 | an accepted name is non-empty and equal to its own strip |
| `RenameReply.IgnoredReplyChangesNothing` | input_name_helper.py:33-45 | a short tuple, another command, a non-string or too-short value, or a blank name leaves the collected names unchanged |
| `RenameReply.AcceptedReplySetsOneName` | input_name_helper.py:41-46 | an accepted reply sets exactly its code to the stripped remainder, overwriting an earlier name, and keeps every other entry |
| `RenameReply.ApplyReplyKeepsWellFormed` | input_name_helper.py:45-46 | handling a reply keeps every collected name well formed under a two-character code |
| `RenameReply.ApplyReplyAt` | input_name_helper.py:46 | one reply sets the entry of the code it renames and leaves the entry of every other code as it was |
| `RenameReply.ParseOfPaddedName` | input_name_helper.py:40-46 | a rename value built as code, whitespace, name, whitespace is parsed back to that code and name, whatever follows the value in the tuple |
| `RenameReply.AcceptedValueIsPaddedName` | input_name_helper.py:40-46 | the value of an accepted reply is its code followed by its name padded with whitespace |
| `RenameReply.ReceivedWellFormed` | input_name_helper.py:31-50 | after any sequence of replies, all codes have two characters and all names are non-empty and stripped |
| `RenameReply.RenamedCodeIsReceived` | input_name_helper.py:46 | a code that some reply renamed has a collected name |
| `RenameReply.LastRenameWins` | input_name_helper.py:46 | a collected name comes from a reply that renamed its code, and no later reply renamed that code |
| `RenameReply.RenameCollector.constructor` | input_name_helper.py:26 | the collected names start empty |
| `RenameReply.RenameCollector.OnUpdate` | input_name_helper.py:31-50 | the callback updates the dictionary in place to the result of applying the reply to the old names, and keeps the names well formed |
| `InputNames.FromCode` | input_name_helper.py:97-99 | a lookup returns a known input with the requested code, or nothing only when no known input has that code |
| `InputNames.FromCodeOfMember` | input_name_helper.py:97 | with distinct codes, looking up a member's code gives back that member |
| `InputNames.MapToInputSources` | input_name_helper.py:95-100 | the loop yields, for every known input whose code was collected, the collected name, and nothing else |
| `InputNames.CustomNamesAreKnownInputs` | input_name_helper.py:95-98 | an input is a key of the custom names exactly when it is known and its code was collected, and it carries the collected name |
| `InputNames.UnknownCodeDropped` | input_name_helper.py:96-100 | a collected code that names no known input leaves no entry |
| `InputNames.DisplayNames` | input_name_helper.py:123-132 | seeding with default meanings and then overriding non-blank custom names gives the display-name map |
| `InputNames.OverrideStep` | input_name_helper.py:130-132 | one override step writes a non-blank custom name over its input's entry and skips a blank one |
| `InputNames.DisplayNamesCoverKnownInputs` | input_name_helper.py:123 | when custom names belong to known inputs, there is exactly one display name per known input |
| `InputNames.DisplayNamePrefersCustom` | input_name_helper.py:123-132 | a known input shows its custom name when that name has a non-whitespace character, and its default meaning otherwise |
| `InputNames.NoCustomNamesGivesDefaults` | input_name_helper.py:123-132 | with no custom names, the display names equal the default meanings exactly |
| `InputNames.DisplayOfWellFormedNames` | input_name_helper.py:127-132 | for custom names from the query, which are never blank, each known input shows its custom name if it has one and its default meaning otherwise |
| `InputNames.QueryCustomInputNames` | input_name_helper.py:13-108 | the query returns the collected names mapped onto known inputs, each well formed, or an empty map when the connection could not be set up |
| `InputNames.GetInputDisplayNames` | input_name_helper.py:111-137 | one display name per known input: the name last received for its code if the query ran, else its default meaning |
| `InputNames.LivingRoomReply` | input_name_helper.py:40-46 | the reply value "01Living Room  " yields code "01" and name "Living Room", trimmed with case kept |
| `InputNames.DenTvScenario` | input_name_helper.py:111-137 | with known inputs 00 (VCR/DVR) and 01 (CBL/SAT) and one reply "01Den TV", the display names are VCR/DVR and Den TV |

## Left out

- Connection creation, `connect`, `send` and `close` are left out. They are network I/O done by the external `pyeiscp` library. Whether the connection could be created and opened is the `connected` parameter of `QueryCustomInputNames`.
- The replies that reach the callback before the mapping loop at input_name_helper.py:95 are the `replies` parameter; they may arrive during any of the earlier awaits (lines 62-63, 76, 83 and 92). Delivering them is modelled as a loop calling `OnUpdate` in arrival order. Replies that arrive after the names have been mapped are not modelled.
- The query commands sent per known input (the short and the descriptive rename command) are left out, with their pacing sleeps. They are fire-and-forget I/O with no effect on the collected names.
- The `asyncio.sleep` waits and the timeout window are left out, because they are scheduling, not logic.
- Logging is left out, including the connect callback, which only logs.
- The catch-and-log handlers are modelled by their effect. A failure to connect leaves the custom names empty, so the display names are the defaults. The `except ValueError` of the mapping loop (input_name_helper.py:99-100) fires for every collected code that names no known input; in the model that is the `None` branch of the lookup in `MapToInputSources`, which skips the code (`UnknownCodeDropped`). The handlers in the callback and around the query sends catch only errors of the I/O and logging calls left out here.
- The `except` around the query call in the display-name routine never fires, because the query catches its own exceptions. It is not modelled.
- The command-line entry points and their printing are left out.
- The real contents of the input enumeration are left out, because its constants module is not part of this model. Any custom `_missing_` lookup hook it might have is left out too: a lookup is exact code equality.
- `RenameReply.RenameCollector.OnUpdate`: Python strings may hold lone surrogate code points, which Dafny's `char` cannot represent. The model covers strings of Unicode scalar values only.
- Dictionary order is left out: the model's maps are unordered. In the source, the display-name dictionary is built in enumeration order (input_name_helper.py:123) and the custom-name dictionary in the order codes first arrived (line 95).
- Reply tuple elements are reduced to "a string with this text" or "not a string". Python `str` subclasses and objects with a custom `__eq__` are not distinguished.
