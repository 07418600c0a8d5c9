# CORgiS-API middleware core in Dafny

This project models the pure logic of the CORgiS-API middleware. The middleware sits
between an HTTP client and a microcontroller on a serial line. The model covers:

- **The telemetry frame codec.**
  - `outputIsValid` checks a raw reply line. The line must be long enough, start with
    `V00=` and end with `;`. The pattern `\w{3,4}=\w{1,4};` must find at least 28
    fields in it.
  - There are two variants of this validator. The `main.go` variant has no upper length
    bound. The `helpers.go` variant accepts only 169..214 characters.
  - `outputToMap` splits the line into `name=value` pieces. A value is read as
    hexadecimal when its piece starts with `V` and as decimal otherwise.
- **The parameter registry.**
  - The three name lists: level `V00`..`V08`, threshold `T01`..`T08`, and the toggles
    `PUMP_ON`/`PUMP_OFF`.
  - The membership tests `stringInSlice` and `contains`.
  - The request validators `URLParamValid` and `URLValueValid`.
- **The command a set request writes.** It is `<NAME;>` for a toggle and
  `<SET_NAME=VALUE;>` otherwise.
- **The confirmation loop of `setHandler` / `SetHandler` and the reply of
  `getHandler`.**
  - Level writes poll until the snapshot shows the requested value.
  - Pump writes poll until `PUMP` shows 1 or 0.
  - Threshold writes return the first snapshot.
- **`singleOutputRead` and one cycle of the telemetry routine `DB_routine`.**

Modules, one per concern:

| module | file | what it holds |
|---|---|---|
| `Wrappers` | wrappers.dfy | `Option` |
| `Text` | text.dfy | `strings.HasPrefix`, `HasSuffix`, `Split` and its inverse `Join` |
| `Strconv` | strconv.dfy | `strconv.ParseInt` as a pure function, and `FormatInt` as its inverse |
| `Pattern` | pattern.dfy | the field pattern and `FindAll` as a leftmost scan (`CountMatches`), with a reference reading of the pattern (`MatchesWith`) |
| `Frame` | frame.dfy | `outputIsValid` in both windows, and `outputToMap` (`Decode`) with its panics as `None` |
| `Registry` | registry.dfy | the name lists, `stringInSlice`, `contains`, `URLParamValid`, `URLValueValid`, and a reference classification `ClassOf` |
| `Command` | command.dfy | the command encoding, and the device's reading of it as its inverse |
| `Device` | device.dfy | `singleOutputRead` over a stream of reply lines, and one telemetry cycle |
| `Confirmation` | confirm.dfy | the set handler (validation, command, confirmation), `getHandler`, and the search for the first confirming snapshot |

The serial line is abstracted as the sequence of reply lines it yields.

- A set request is `SetHandler(window, param, value, replies)`. Its result is one of:
  - the rejection of the parameter;
  - the rejection of the value;
  - the command written, together with the reply.
- The reply is the confirming frame or `StillPolling`. `StillPolling` means the
  replies ran out while the loop, which never ends in the source, was still waiting.
- Panics in the source become values:
  - `DecodePanic`: `outputToMap` failed on a polled line.
  - `ValuePanic`: a level value that does not parse. Validation rules this out.

Three behaviours of the source shape the model:

- A decode failure while polling is not retried. In both handlers, `outputToMap` calls
  `check` on every parse error, and `check` panics (main.go:247, main.go:359-363,
  handlers.go:54). The model ends the request with `DecodePanic`.
- `DB_routine` decodes every line its validator accepts, and the same `check` panics on
  a value that does not parse (main.go:70-71, main.go:104-105). `TelemetryCycle`
  models this with `Crash`. The cycle that skips such a line is the corrected
  `TelemetryCycleSafe` (see Findings).
- The two copies of `outputIsValid` differ in their length test: `len(s) > 168` in
  main.go:85, and `len(s) > 168 && len(s) < 215` in helpers.go:13. Both are modelled,
  as the window parameter `Unbounded` and `Bounded`.

## Model

| member | source | states |
|---|---|---|
| `Text.Split` | main.go:99 | `strings.Split` always yields at least one piece, and no piece contains the separator |
| `Text.JoinSplit` | main.go:99 | joining the pieces of a split with the separator gives the string back |
| `Text.SplitJoin` | main.go:101 | splitting the join of separator-free pieces gives the pieces back |
| `Text.SplitAppend` | main.go:99-100 | splitting `x;t` gives the pieces of `x` followed by the pieces of `t` |
| `Text.SplitWithoutSeparator` | main.go:101 | a string without the separator splits into itself alone |
| `Strconv.ParseInt` | main.go:104-110 | a successful `strconv.ParseInt` fits in `int64` and ends in a digit of the base |
| `Strconv.ParseFormat` | main.go:104-110 | `ParseInt(FormatInt(n, b), b)` is `n` exactly when `n` fits in `int64`, and fails otherwise |
| `Strconv.FormatNatDenotes` | main.go:104-110 | the digits written for `n` are a non-empty digit string whose value is `n` |
| `Strconv.ParsedCharacters` | main.go:334-337 | a successful parse saw only digits of the base, after an optional leading sign |
| `Strconv.ParseSignedDigits` | main.go:334-337 | an optional `+` or `-` followed by a non-empty digit string, leading zeros included, parses to the signed value of the digits exactly when that value fits in `int64`; with `ParsedCharacters` this describes every input |
| `Strconv.ParsePositive` | main.go:334-337 | `+` followed by a non-empty digit string parses to the value of the digits exactly when it fits in `int64` |
| `Strconv.PlusSignAccepted` | main.go:334-337 | `+255` parses as 255 |
| `Strconv.LeadingZerosAccepted` | main.go:334-337 | `007` parses as 7 |
| `Pattern.WordRunMeaning` | main.go:38 | a word run is all `\w` characters, and stops at the end or at a non-word character |
| `Pattern.MatchAtMeaning` | main.go:38 | a match at the start of a string exists exactly when some name length 3..4 and value length 1..4 fit the pattern there, and it has their length |
| `Pattern.MatchLengthsForced` | main.go:38 | at most one match starts at any position |
| `Pattern.CountMatches` | main.go:88 | `FindAll` finds at most one match per six characters |
| `Pattern.MatchAtAppend` | main.go:88 | text after a `;` does not change the match at the start |
| `Pattern.CountMatchesAppend` | main.go:88 | matches of two `;`-separated parts are counted separately |
| `Pattern.CountLine` | main.go:88 | a line of `n` well-formed fields holds exactly `n` matches |
| `Frame.BoundedIsUnboundedBelow215` | helpers.go:13-16 | the `helpers.go` validator accepts exactly the lines the `main.go` validator accepts that are shorter than 215, all of length 169..214 |
| `Frame.OutputIsValid` | main.go:84-94 | an accepted line is at least 169 characters long, starts with `V00=` and ends with `;`; the `helpers.go` variant (helpers.go:12-22) also keeps it below 215 characters. The converse is `FieldLineIsValid`, the field count `TooFewFieldsRejected` |
| `Frame.FieldLineIsValid` | main.go:84-94 | a line of at least 28 well-formed fields starting with `V00=`, whose length is in the window, is accepted |
| `Frame.TooFewFieldsRejected` | main.go:88 | fewer than 28 well-formed fields are rejected at any length |
| `Frame.UnboundedAcceptsLongerLines` | main.go:85-88 | the `main.go` validator has no upper bound: extending an accepted line with fields keeps it accepted |
| `Frame.ValidatorsDisagree` | helpers.go:13 | a 276-character line of 28 fields is accepted by the `main.go` variant and rejected by the `helpers.go` variant |
| `Frame.Pieces` | main.go:99-100 | the pieces before the last `;` contain no `;` |
| `Frame.DecodeField` | main.go:101-111 | a decoded piece has a name without `=` and an `int64` value; `DecodeFieldOf` states which value, `PieceWithoutValueFails` when it fails |
| `Frame.Decode` | main.go:97-114 | every name in a decoded map is free of `=` and every value is an `int64`; when it fails and what it holds are `DecodeFailsClosed` and `DecodeLastWins` |
| `Frame.CollectedEntries` | main.go:100-111 | every entry of the collected map is one of the decoded pieces |
| `Frame.PiecesOfLine` | main.go:99-100 | the pieces of a line of fields are exactly the fields' `name=value` texts |
| `Frame.DecodeFields` | main.go:100-111 | every piece is decoded on its own, in order |
| `Frame.DecodeIgnoresTail` | main.go:99-100 | `outputToMap` ignores everything after the last `;` |
| `Frame.CollectFailsClosed` | main.go:104-110 | collecting fails exactly when some piece failed |
| `Frame.DecodeFailsClosed` | helpers.go:28-39 | `outputToMap` fails exactly when some piece has no `=` or a value that does not parse; no partial map is returned |
| `Frame.FieldFailureFailsLine` | helpers.go:33-38 | one undecodable field makes the whole line fail |
| `Frame.PieceFailureFailsLine` | main.go:100-105 | one piece without a parsable value makes the whole line fail |
| `Frame.CollectLastWins` | main.go:100-111 | the map holds every piece's name, bound to the value of the last piece with that name, and nothing else |
| `Frame.DecodeLastWins` | helpers.go:29-40 | `outputToMap` binds each name to its last piece's value |
| `Frame.DecodeFieldOf` | main.go:101-110 | a piece `name=value` decodes to the name and the value read in base 16 for `V` names and base 10 otherwise |
| `Frame.HexForVPieces` | main.go:103-106 | `V00=ff` decodes to 255 |
| `Frame.DecimalForOtherPieces` | main.go:107-110 | `T01=12` decodes to 12 |
| `Frame.HexOnDecimalPieceFails` | helpers.go:36-38 | `T01=ff` fails |
| `Frame.PieceWithoutValueFails` | main.go:101-104 | every piece without `=` fails, since there is no second part to index |
| `Frame.SplitFieldText` | main.go:101 | splitting `name=value` on `=` gives the name and the value |
| `Frame.DecodeFieldRoundTrip` | main.go:101-110 | the field the device writes for a name and an `int64` decodes to that name and number |
| `Frame.RenderRoundTrip` | helpers.go:25-43 | decoding the line written for writable entries gives the map of the entries, later entries winning |
| `Registry.InSlice` | main.go:322-329 | the scan finds `a` exactly when some element equals `a` |
| `Registry.StringInSlice` | helpers.go:46-53 | `stringInSlice(a, list)` holds exactly when `a` is in the list |
| `Registry.Contains` | helpers.go:94-101 | `contains(s, e)` holds exactly when `e` is in the list |
| `Registry.URLParamValid` | main.go:350-357 | an accepted name holds neither `=` nor `;`; which names are accepted is `ParamValidIffKnown` |
| `Registry.URLValueValid` | main.go:332-347 | an accepted value comes with an accepted name, and a non-empty accepted value parses as decimal to a number in 0..999; the exact ranges are `ValueValidIffInRange` |
| `Registry.TogglesArePlain` | main.go:42 | the toggle names hold neither `=` nor `;` |
| `Registry.ListsMatchClasses` | main.go:40-42 | the three lists hold exactly the level names `V00`..`V08`, the threshold names `T01`..`T08` and the two toggles |
| `Registry.ParamValidIffKnown` | main.go:350-357 | `URLParamValid` accepts exactly the names of the three lists |
| `Registry.RegistryHasNineteenNames` | main.go:40-42 | the lists hold 19 pairwise distinct names |
| `Registry.ValueValidIffInRange` | main.go:332-347 | a non-empty value is accepted exactly when it parses as decimal and lies in 0..255 for a level or 0..999 for a threshold; the empty value exactly for a toggle |
| `Registry.DecimalValueRanges` | helpers.go:56-71 | for every integer written in decimal: a level accepts exactly 0..255, a threshold exactly 0..999, and a toggle or unknown name nothing |
| `Registry.LevelBoundaryValues` | helpers.go:62 | `0` and `255` are accepted for a level; `256` and `-1` are rejected |
| `Registry.ThresholdBoundaryValues` | helpers.go:64 | `0` and `999` are accepted for a threshold; `1000` and `-1` are rejected |
| `Registry.NonNumericRejected` | helpers.go:57-61 | a value with a character that is neither a digit nor a leading sign is rejected for every name |
| `Registry.HexTextRejected` | helpers.go:57-61 | `ff` and `abc` are rejected for every name |
| `Registry.ToggleTakesNoValue` | main.go:333-345 | a toggle accepts only the empty value, and only a toggle accepts it |
| `Registry.PumpPrefixMatchesClass` | handlers.go:33 | among valid names, starting with `PUMP` is the same as being a toggle |
| `Registry.ValidatedValueParses` | main.go:243-245 | a validated level or threshold value parses as decimal and lies in its range, so the handler's second parse cannot panic |
| `Registry.ValidatedTextIsPlain` | main.go:234 | a validated non-toggle name and value hold neither `=` nor `;` |
| `Command.Encode` | main.go:227-238 | a command is at least three characters longer than the name, starts with `<` and ends with `;>`; its inverse is `EncodeRoundTrip` |
| `Command.ToggleCommands` | handlers.go:33-34 | the two toggle requests write `<PUMP_ON;>` and `<PUMP_OFF;>` |
| `Command.EncodeRoundTrip` | main.go:227-238 | the device reads the command of a validated request back as that request: a trigger for a toggle, a set of the exact value otherwise |
| `Command.ToggleRoundTrip` | handlers.go:34 | `<NAME;>` reads back as a trigger of the name |
| `Command.SetRoundTrip` | handlers.go:39 | `<SET_NAME=VALUE;>` reads back as the name and the value |
| `Command.EncodeInjective` | main.go:228-234 | distinct validated requests write distinct commands |
| `Device.ValidReplies` | main.go:306-319 | every reply `singleOutputRead` returns is one of the lines read and passes the validator; `ValidRepliesMeaning` is the converse |
| `Device.ValidRepliesMeaning` | main.go:306-319 | every valid reply is returned |
| `Device.ValidReplyKept` | main.go:314-315 | a valid reply is returned as it is |
| `Device.SingleOutputRead` | main.go:306-319 | the result is the first reply that passes the validator, or none while no reply passes |
| `Device.TelemetryCycle` | main.go:70-78 | the cycle as written skips exactly the lines the `main.go` validator rejects, and stores a line's decoded frame; `SafeCycleAgrees` says where it crashes |
| `Device.TelemetryCycleSafe` | main.go:70-78 | the corrected cycle never crashes; it stores exactly the valid lines that decode, with their frame |
| `Device.SafeCycleAgrees` | main.go:70-78 | both cycles agree except on valid lines that do not decode, where the cycle as written crashes |
| `Device.TooFewFieldsSkipped` | main.go:70-77 | a line of fewer than 28 fields is skipped |
| `Device.UndecodableLineIsValid` | main.go:84-94 | both validators accept the line `V00=zz;` followed by 27 copies of `T01=12;` |
| `Device.UndecodableLineFails` | main.go:103-105 | `outputToMap` panics on that line, since `zz` is not hexadecimal |
| `Device.ValidLineMayNotDecode` | main.go:70-71 | the telemetry cycle as written crashes on a line its validator accepted |
| `Confirmation.Confirm` | main.go:246-259 | the result is the first snapshot meeting the goal, or none exactly when no snapshot does |
| `Confirmation.ConfirmExtends` | main.go:246-259 | later snapshots do not change a decision, and while undecided the loop carries on with them |
| `Confirmation.ConfirmFirst` | main.go:246-253 | a snapshot meeting the goal after snapshots that all miss it is the decision |
| `Confirmation.DecodePolls` | main.go:247 | polls are decoded in order up to the first one that does not decode, and a panic is flagged exactly then |
| `Confirmation.Await` | main.go:246-259 | the polling loop ends confirmed, still polling, or in a decode panic, never with another error, and confirms only with a frame meeting the goal that some poll decoded to; which poll is `AwaitConfirmsFirstHit` |
| `Confirmation.Respond` | main.go:243-290 | a confirmed reply is the decoded frame of a valid line read from the device |
| `Confirmation.SetHandler` | main.go:210-291 | a written command reads back as the request, and a confirmed reply is the decoded frame of a valid line read; `ValidationPrecedesWrite` gives the order of the checks |
| `Confirmation.GetAll` | main.go:293-299 | `getHandler` answers with a decoded frame of a valid line read, keeps reading, or panics; `GetAllTakesFirstValid` says which line |
| `Confirmation.ValidationPrecedesWrite` | handlers.go:20-29 | an unknown name is rejected whatever the value; a bad value only for a known name; a command is written exactly when both pass, and it reads back as the request |
| `Confirmation.NoUnexpectedAfterValidation` | handlers.go:50-97 | after validation every name takes the level, pump or threshold branch, so neither the "unexpected" reply nor the value panic can occur |
| `Confirmation.AwaitConfirmsFirstHit` | handlers.go:53-66 | the loop confirms with the first poll meeting the goal, when all polls before it decode |
| `Confirmation.AwaitConfirmedIsFirstHit` | handlers.go:68-87 | when the loop confirms, it is with the first poll meeting the goal |
| `Confirmation.AwaitStillPolling` | main.go:246-259 | the loop is still waiting exactly when every poll decodes and none meets the goal |
| `Confirmation.AwaitPanicsAtUndecodable` | main.go:247 | the loop panics at the first poll that does not decode, when no earlier poll met the goal |
| `Confirmation.LevelConfirmation` | handlers.go:50-66 | a level write sends `<SET_p=v;>` and returns the first valid reply whose value for `p` equals the parsed request; a missing name never matches |
| `Confirmation.PumpConfirmation` | handlers.go:67-87 | a pump write sends `<p;>` and returns the first valid reply whose `PUMP` is 1 for `PUMP_ON` or 0 for `PUMP_OFF` |
| `Confirmation.ThresholdBranch` | handlers.go:89-94 | a threshold write sends `<SET_p=v;>` and waits for any snapshot |
| `Confirmation.ThresholdReturnsFirstReply` | main.go:282-287 | a threshold write returns the first valid reply without comparing, or panics if it does not decode |
| `Confirmation.AwaitAnyTakesFirst` | main.go:283 | waiting for any snapshot ends at the first poll |
| `Confirmation.GetAllTakesFirstValid` | main.go:293-299 | `getHandler` answers with the first valid reply decoded, or panics if it does not decode |
| `Confirmation.AwaitOne` | main.go:247-253 | a single reply decoding to a frame that meets the goal confirms with that frame |
| `Confirmation.LevelWriteEchoed` | main.go:234-253 | a level write of `n` in 0..255, answered by a valid line whose frame has `p` equal to `n`, writes `<SET_p=n;>` and confirms with that frame |
| `Confirmation.PumpOnEchoed` | main.go:229-268 | `PUMP_ON`, answered by a valid line whose frame has `PUMP` equal to 1, writes `<PUMP_ON;>` and confirms with that frame |

## Left out

- Serial I/O (`serial.Open`, `Write`, `bufio.Scanner`): the device is the sequence of reply lines it yields.
  - The model does not cover write failures.
  - It does not cover reconnection in `DB_routine` (main.go:58-64).
  - It does not cover the error text `handlers.go` writes on a failed set write while carrying on (handlers.go:41-43).
- `findArduinoPort` and `getSerialNumbers`: USB enumeration and file reading.
- InfluxDB: `getDBConnection`, `databaseDataExists`, `createDatabaseData1h`, `writeLineToDatabase`. This is an external client library. A stored frame is the `Store` result of a cycle.
- HTTP routing, `main`, `rootHandler`/`RootHandler`, `APIRules`, `json.Marshal`, `log` and `println`: library wrappers and constant text. A reply is the frame itself, not its JSON text.
- `DB_routine` as an endless goroutine sharing the global `arduino` handle with the handlers: only one cycle is modelled. The concurrency is left out.
- `time.Sleep` delays, and the `start`/`time.Since` timing of `SetHandler`: timing only.
- `StartHandler` and `StopHandler`: they depend on `process`, `validateJSONMap` and `ids`, which are not part of this model.
- `randInt`: randomness.
- The endless polling loops: modelled over a finite sequence of replies. Running out of replies is `StillPolling`, not a verdict that the loop never ends.
- Go strings are byte strings: each character stands for one byte, so lengths are byte lengths only for ASCII text.
- Pattern.CountMatches: its own contract is only the bound of one match per six characters. Its agreement with the regular-expression engine is argued position by position (`MatchAtMeaning`, `MatchLengthsForced`). It is also checked on lines of well-formed fields (`CountLine`). There is no general lemma against a separate model of `FindAll`.
- Strconv.ParseInt: its own contract states only the `int64` range and the final digit. Its exact behaviour is stated by two lemmas together: `ParsedCharacters` (only an optional sign and digits of the base parse) and `ParseSignedDigits` (every such text parses to its signed value when that fits in `int64`).

## Findings

| source | as written | input that shows it | evidently intended | confidence | as-written member | corrected member |
|---|---|---|---|---|---|---|
| main.go:70-75 | `DB_routine` passes every line `outputIsValid` accepts to `outputToMap`, which panics through `check` when a value does not parse. The pattern `\w{1,4}` lets any letters through, so a value that is not hexadecimal (or, for other names, not decimal) passes validation. | `V00=zz;` followed by 27 copies of `T01=12;` (196 characters, accepted by both validators) | a line that passes validation but does not decode is logged and skipped, and the routine carries on | not executed; the panic follows from `check` (main.go:359-363) | `Device.ValidLineMayNotDecode` | `Device.TelemetryCycleSafe` |
