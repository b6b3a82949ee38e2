# SysBot trade-request intake, modelled in Dafny

This project models how the Discord `trade` command of SysBot.NET takes in a
request and decides whether it enters the link-trade queue. The source is
`TradeModule.cs`, and the model covers four paths:

- **The text path** (`TradeAsync(int, string)`):
  - The request text is stripped of its code block and split into rows on `'\n'`.
  - Each row goes to one of three places: the Showdown-set description rows, one of three trainer overrides (secret id, trainer id, trainer name), or the invalid extra rows.
  - The description rows are joined and parsed as a Showdown set.
  - If the parser's invalid lines plus the invalid extra rows are non-empty, the request stops with "Unable to parse".
  - Otherwise the generator builds an entity, and the present overrides are written onto it in place: secret id, then trainer id, then trainer name.
  - An entity that is not a PK8, or that is illegal while legality verification is on, comes back as a "best attempt" and is not queued.
  - Otherwise the party stats are recomputed in place and the entity goes to the admission gate.
- **The attachment path** (`TradeAsyncAttach(int)`): a missing attachment, a failed download or anything but a PK8 is refused. Otherwise the entity goes to the admission gate.
- **The random-code overloads**: they draw a code from the queue and call the two paths above with it.
- **The admission gate** (`AddTradeToQueueAsync`):
  - A blocked entity is refused first.
  - Then an illegal entity is refused, while verification is on.
  - Otherwise exactly one enqueue call is made: the given code, name and sudo flag, as a `LinkTrade`/`Specific` trade.

## Model structure

- `text.dfy` (module `Text`): the .NET string routines the command relies on.
  - `String.Split(char)` keeps empty pieces.
  - `String.Join`.
  - Ordinal `String.Contains`.
  - `String.Trim`, with the `Char.IsWhiteSpace` set.
  - `ushort.Parse`/`uint.Parse`, restricted to plain decimal digits.
- `pokemon.dfy` (module `Pokemon`): the entity and the collaborators.
  - `Pkm` is a class whose trainer identity and party stats are updated in place.
  - The parser, template builder, generator, legality analysis, block-list, stat recalculation and species names are fields of an `Engine` value. They are never looked inside.
- `splitter.dfy` (module `Splitter`): the row-splitting loop.
  - `SplitRows` is the imperative loop. It is proved equal to `Partition`, a fold of one `Step` per row, with `RouteOf` deciding where a row goes.
  - The partition and last-write facts are proved for the fold under any routing function.
- `row_forms.dfy` (module `RowForms`): what the splitter makes of rows as a user writes them.
  - `Secret Id: <n>`, `Trainer Id: <n>` and `Trainer: <name>` rows.
  - A trainer name holding a colon.
  - An override row among description rows.
- `trade.dfy` (module `Trade`): the admission gate, both command paths, the in-place overrides, and the random-code overloads.
  - Each command ends in an `Outcome`: a reply, a best-attempt advisory, one `Enqueued` request, or `Faulted` when the species-name lookup throws (an index below zero or past the end of the table).

### Value of a row: every colon, not the first

One might expect a row's value to be everything after its first colon. The code instead splits the row on **every** colon (`row.Split(':')`), and takes a value only when there are exactly two pieces. The model follows the code:

- A row with no colon, or with two or more, has the value `""`.
- So `Trainer: Red:Blue` sets the trainer name to `""` (`RowForms.TrainerNameWithColon`).
- `Secret Id: 1:2` is an invalid row.

## Model

| member | source | states |
|---|---|---|
| Splitter.SplitRows | SysBot.Pokemon.Discord/Commands/Bots/TradeModule.cs:67-95 | The splitting loop (three nullable locals reassigned, two lists appended, a failed parse caught per row) ends with exactly the split that the per-row fold `Partition` gives for the same rows. |
| Splitter.ValueOf | SysBot.Pokemon.Discord/Commands/Bots/TradeModule.cs:76-78 | A row's value is `""` unless the row has exactly one colon; with one colon, it is the trimmed text after that colon. |
| Splitter.RouteOf | SysBot.Pokemon.Discord/Commands/Bots/TradeModule.cs:76-93 | Where one row goes: the priority Secret Id, Trainer Id, Trainer, the value taken after the one colon, and a failed parse sending the row to the invalid rows. Its contract is carried by `SecretIdRoute`, `TrainerIdRoute`, `TrainerRoute`, `DescriptionRoute` and `RouteNeedsOneColon`. |
| Splitter.Step | SysBot.Pokemon.Discord/Commands/Bots/TradeModule.cs:80-94 | One loop iteration: appends the row to one list or reassigns one override, per `RouteOf`. Its contract is `StepWritten`, and `SplitRows` proves the loop body performs it. |
| Splitter.Fold | SysBot.Pokemon.Discord/Commands/Bots/TradeModule.cs:74-95 | The loop over all rows in input order, for any routing. Its contracts are `FoldLists`, `RowsAccountedOnce`, `UnwrittenIffNoWrite` and `LastWriteWins`. |
| Splitter.Partition | SysBot.Pokemon.Discord/Commands/Bots/TradeModule.cs:74-95 | The fold with the command's routing. Its contracts are `SplitRows`, `SplitAccountsForEveryRow` and `OverrideIsLastWrite`. |
| Splitter.FoldLists | SysBot.Pokemon.Discord/Commands/Bots/TradeModule.cs:74-95 | For any routing of rows, the description list and the invalid list are exactly the rows routed to each, in input order. |
| Splitter.RowsAccountedOnce | SysBot.Pokemon.Discord/Commands/Bots/TradeModule.cs:74-95 | For any routing, the rows as a multiset are the two lists plus the override rows: each row is counted exactly once. |
| Splitter.SplitAccountsForEveryRow | SysBot.Pokemon.Discord/Commands/Bots/TradeModule.cs:74-95 | For the command's routing: both lists keep input order, and every row lands in exactly one of the two lists or the override rows (lengths and multisets add up). |
| Splitter.StepWritten | SysBot.Pokemon.Discord/Commands/Bots/TradeModule.cs:82-87 | One iteration writes an override exactly when its row sets that override; otherwise the override keeps its earlier value. |
| Splitter.UnwrittenIffNoWrite | SysBot.Pokemon.Discord/Commands/Bots/TradeModule.cs:82-93 | For any routing, an override is null after the loop if and only if no row set it. |
| Splitter.LastWriteWins | SysBot.Pokemon.Discord/Commands/Bots/TradeModule.cs:82-93 | For any routing, an override holds the value of the last row that set it. A row whose parse failed never sets it, so it cannot replace an earlier value. |
| Splitter.OverrideIsLastWrite | SysBot.Pokemon.Discord/Commands/Bots/TradeModule.cs:82-93 | For the command's routing, each of secret id, trainer id and trainer name is null exactly when no row set it; otherwise it holds the last row's value. |
| Splitter.RouteNeedsOneColon | SysBot.Pokemon.Discord/Commands/Bots/TradeModule.cs:76-89 | A row without exactly one colon that names "Secret Id:" or "Trainer Id:" is invalid. One that names only "Trainer:" sets the trainer name to `""`. |
| Splitter.SecretIdRoute | SysBot.Pokemon.Discord/Commands/Bots/TradeModule.cs:82-83 | A row containing "Secret Id:" is always routed as a secret id, whatever else it contains. It either sets the secret id or is invalid. It sets one if and only if the row has one colon and its value is a digit string whose number is at most 65535, and then the secret id is that number (so `Secret Id:7` and `Secret Id: 007` both set 7). |
| Splitter.TrainerIdRoute | SysBot.Pokemon.Discord/Commands/Bots/TradeModule.cs:84-85 | The same rule, both directions, with 32-bit values, for a row that contains "Trainer Id:" and not "Secret Id:" (so `  Trainer Id: 5` sets 5). |
| Splitter.TrainerRoute | SysBot.Pokemon.Discord/Commands/Bots/TradeModule.cs:86-87 | A row that contains "Trainer:" but neither id label never fails: it sets the trainer name to the row's value, whatever that is. |
| Splitter.DescriptionRoute | SysBot.Pokemon.Discord/Commands/Bots/TradeModule.cs:82-89 | A row is a description row if and only if it contains none of the three labels. |
| RowForms.ValueAfterOneColon | SysBot.Pokemon.Discord/Commands/Bots/TradeModule.cs:76-78 | A colon-free name, a colon and a colon-free value make a row with one colon, whose value is the trimmed value. |
| RowForms.SecretIdRow | SysBot.Pokemon.Discord/Commands/Bots/TradeModule.cs:76-83 | `Secret Id: <n>` sets the secret id to n when n is at most 65535, and is an invalid row otherwise. |
| RowForms.TrainerIdRow | SysBot.Pokemon.Discord/Commands/Bots/TradeModule.cs:76-85 | `Trainer Id: <n>` sets the trainer id to n when n is at most 4294967295, and is an invalid row otherwise. |
| RowForms.NoLongerLabelInTrainerRow | SysBot.Pokemon.Discord/Commands/Bots/TradeModule.cs:82-86 | A "Trainer:" row with a colon-free name cannot contain "Secret Id:" or "Trainer Id:", so neither takes priority over it. |
| RowForms.TrainerRow | SysBot.Pokemon.Discord/Commands/Bots/TradeModule.cs:76-87 | `Trainer:` followed by a colon-free name sets the trainer name to that name, trimmed. |
| RowForms.TrainerNameWithColon | SysBot.Pokemon.Discord/Commands/Bots/TradeModule.cs:76-87 | A "Trainer:" row whose name holds a colon (and that names neither id label) sets the trainer name to `""`, not to the text after the label. |
| RowForms.SecretIdAmongDescriptionRows | SysBot.Pokemon.Discord/Commands/Bots/TradeModule.cs:74-95 | A valid secret id row between two description rows sets only the secret id, keeps both description rows in order, and reports no invalid row. |
| Text.SplitOn | SysBot.Pokemon.Discord/Commands/Bots/TradeModule.cs:74-76 | `String.Split(char)`, empty pieces kept: always at least one piece. With `SplitOnCount`, `SplitOnPiecesLackSeparator` and `JoinSplitOn` it is pinned down as the pieces between separators. |
| Text.Join | SysBot.Pokemon.Discord/Commands/Bots/TradeModule.cs:97 | `String.Join` with a one-character separator. Its contracts are the round trips `JoinSplitOn` and `SplitOnJoin`. |
| Text.Contains | SysBot.Pokemon.Discord/Commands/Bots/TradeModule.cs:82-86 | Ordinal `String.Contains`. Its contract is `ContainsAt`: it holds exactly when the pattern occurs at some position. |
| Text.SplitOnCount | SysBot.Pokemon.Discord/Commands/Bots/TradeModule.cs:76 | `Split(':')` returns one more piece than the row has colons, empty pieces included. |
| Text.SplitOnPiecesLackSeparator | SysBot.Pokemon.Discord/Commands/Bots/TradeModule.cs:74 | No row produced by `Split('\n')` contains a newline. |
| Text.JoinSplitOn | SysBot.Pokemon.Discord/Commands/Bots/TradeModule.cs:97 | Joining the pieces of a split with the same separator gives back the original text. |
| Text.SplitOnJoin | SysBot.Pokemon.Discord/Commands/Bots/TradeModule.cs:97 | Splitting a joined, non-empty list of separator-free strings gives back the list. |
| Text.ContainsAt | SysBot.Pokemon.Discord/Commands/Bots/TradeModule.cs:82-86 | The recursive `Contains` holds if and only if the pattern occurs at some position of the row. |
| Text.Trim | SysBot.Pokemon.Discord/Commands/Bots/TradeModule.cs:78 | `Trim()` returns a contiguous slice of its input, with only white space cut off on either side and no white space left at either end. |
| Text.ParseUnsigned | SysBot.Pokemon.Discord/Commands/Bots/TradeModule.cs:83-85 | The parse, which consumes digits left to right (`acc * 10 + digit`) and fails at a non-digit or once the value passes the bound, succeeds if and only if the text is a non-empty digit string whose value by `DigitsValue` (an independent definition that recurses from the last digit) is at most the bound; the result is that value. |
| Text.ParseDigitsFrom | SysBot.Pokemon.Discord/Commands/Bots/TradeModule.cs:83-85 | After any prefix of digits has been consumed into its value, the parse loop ends with the whole string's value when the string is all digits within the bound, and fails otherwise. |
| Text.ParseDecimal | SysBot.Pokemon.Discord/Commands/Bots/TradeModule.cs:83-85 | The decimal text of n parses back to n exactly when n is within the bound; above it the parse fails (overflow). |
| Text.ParsedTextIsDecimal | SysBot.Pokemon.Discord/Commands/Bots/TradeModule.cs:83-85 | Conversely, any text that parses to v is the decimal text of v after some leading zeros, and v is within the bound (so `Secret Id: 007` sets 7). |
| Pokemon.Pkm.constructor | SysBot.Pokemon.Discord/Commands/Bots/TradeModule.cs:111 | The generated entity starts out with exactly the generator's state. |
| Pokemon.Pkm.ResetPartyStats | SysBot.Pokemon.Discord/Commands/Bots/TradeModule.cs:125 | Only the party stats change, and they become the values recomputed from the entity's state before the call. |
| Trade.Diagnostics | SysBot.Pokemon.Discord/Commands/Bots/TradeModule.cs:99-101 | The invalid lines are the parser's lines followed by the invalid extra rows, in that order. They are empty if and only if both are empty. |
| Trade.ToInt32 | SysBot.Pokemon.Discord/Commands/Bots/TradeModule.cs:113 | The `(int)` cast of a trainer id lands in the signed 32-bit range and is congruent to the id modulo 2^32. |
| Trade.ToInt32Injective | SysBot.Pokemon.Discord/Commands/Bots/TradeModule.cs:113 | Distinct trainer ids stay distinct after the cast. |
| Trade.ApplyOverrides | SysBot.Pokemon.Discord/Commands/Bots/TradeModule.cs:112-114 | Writing the present overrides in place leaves the entity in the state `WithOverrides` gives from its old state. |
| Trade.WithOverrides | SysBot.Pokemon.Discord/Commands/Bots/TradeModule.cs:112-114 | The override step as a function: secret id, then trainer id through the cast, then trainer name, each only when present. Its contracts are `OverridesTouchOnlyIdentity` and `OverridesAgreeOnOverriddenFields`. |
| Trade.OverridesTouchOnlyIdentity | SysBot.Pokemon.Discord/Commands/Bots/TradeModule.cs:112-114 | A present override replaces its property (the trainer id through the cast). An absent one leaves the generator's value. Runtime type, party stats and all other data are unchanged. |
| Trade.OverridesAgreeOnOverriddenFields | SysBot.Pokemon.Discord/Commands/Bots/TradeModule.cs:112-114 | Two entities that differ only in overridden identity properties become identical. |
| Trade.AddTradeToQueue | SysBot.Pokemon.Discord/Commands/Bots/TradeModule.cs:150-166 | The entity is enqueued if and only if it is tradable and (legal or verification off). The enqueue carries the given code, name, sudo flag and entity as a LinkTrade/Specific trade. Otherwise the reply is "blocked" when untradable and "not legal" when tradable. |
| Trade.TradabilityCheckedFirst | SysBot.Pokemon.Discord/Commands/Bots/TradeModule.cs:152-156 | An untradable entity is refused as blocked, whatever the legality analysis would say. |
| Trade.LegalityOffAdmitsTradable | SysBot.Pokemon.Discord/Commands/Bots/TradeModule.cs:158-165 | With verification off, admission depends on tradability alone. |
| Trade.TradeAttach | SysBot.Pokemon.Discord/Commands/Bots/TradeModule.cs:37-56 | The attachment command. Its contracts are `AttachmentAdmission` and `AttachmentFormatCheckedFirst`. |
| Trade.TradeAttachRandomCode | SysBot.Pokemon.Discord/Commands/Bots/TradeModule.cs:144-148 | The attachment command with a drawn code. Its contract is `RandomCodeReachesQueue`. |
| Trade.AttachmentAdmission | SysBot.Pokemon.Discord/Commands/Bots/TradeModule.cs:37-56 | An attachment is enqueued if and only if it is present, downloaded, is a PK8, is tradable and passes legality. The request carries that entity, code, name and sudo flag. |
| Trade.AttachmentFormatCheckedFirst | SysBot.Pokemon.Discord/Commands/Bots/TradeModule.cs:48-53 | A non-PK8 attachment gets "No PK8 attachment" whatever the block-list and legality analysis say. |
| Trade.TradeText | SysBot.Pokemon.Discord/Commands/Bots/TradeModule.cs:62-128 | The text command, run step by step (splitting loop, diagnostics gate, generation, in-place overrides, validity check, in-place stat reset, gate), ends with the outcome the function `TextTrade` gives. |
| Trade.TextTrade | SysBot.Pokemon.Discord/Commands/Bots/TradeModule.cs:62-128 | The text command as a function of its inputs. Its contracts are `TextAdmission`, `DiagnosticsStopRequest`, `InvalidGenerationIsAdvisory` and `ParserSeesDescriptionRows`, and `TradeText` proves the step-by-step command equal to it. |
| Trade.TextTradeRandomCode | SysBot.Pokemon.Discord/Commands/Bots/TradeModule.cs:134-138 | The text command with a drawn code. Its contract is `RandomCodeReachesQueue`. |
| Trade.TextAdmission | SysBot.Pokemon.Discord/Commands/Bots/TradeModule.cs:99-127 | A text request is enqueued if and only if all of these hold: no invalid lines; the template's species is an index into the species-name table (neither negative nor past its end); the generated, overridden entity is a PK8 that passes legality; and after the stat reset it is tradable and passes legality again. The request carries the reset entity. |
| Trade.DiagnosticsStopRequest | SysBot.Pokemon.Discord/Commands/Bots/TradeModule.cs:99-107 | Any invalid line ends the request with the full list. Nothing after the gate (generator, legality, block-list, stat reset) affects the outcome, and nothing is enqueued. |
| Trade.InvalidGenerationIsAdvisory | SysBot.Pokemon.Discord/Commands/Bots/TradeModule.cs:115-123 | A generated entity that is not a PK8, or is illegal under verification, comes back as the best attempt with its species name and is not enqueued. |
| Trade.RandomCodeReachesQueue | SysBot.Pokemon.Discord/Commands/Bots/TradeModule.cs:134-148 | Both code-less overloads enqueue, if at all, with the code drawn from the queue, unchanged. |
| Trade.ParserSeesDescriptionRows | SysBot.Pokemon.Discord/Commands/Bots/TradeModule.cs:97 | When the loop kept at least one description row, the text given to the Showdown parser splits back on `'\n'` into exactly those rows. When it kept none (a request of override rows only, such as `Secret Id: 5`), the parser gets the empty text. |

## Left out

- Discord plumbing is not modelled: `ReplyAsync`, the embed, `SendPKMAsync`, and the command and permission attributes. Replies are values of `Reply`, and the best attempt is the `Advisory` outcome.
- `GetTradeListAsync` (lines 16-31) is not modelled. It only formats the queue contents for display.
- `NetUtil.DownloadPKMAsync` is network I/O. Only its result (success flag, decoded entity) is a parameter of `Trade.TradeAttach`.
- `async`/`await` is not modelled; every command runs sequentially.
- The collaborators are arrows in `Pokemon.Engine` and are never looked inside:
  - Showdown parsing, `GetTemplate` and `GetLegal`;
  - `LegalityAnalysis.Valid` and `CanBeTraded`;
  - party-stat recalculation;
  - the species-name table;
  - `ReusableActions.StripCodeBlock`.
- `AutoLegalityWrapper.GetTrainerInfo(8)` is folded into the `getLegal` arrow.
- The order of the `GetTemplate` call relative to the diagnostics gate is not observable, because the arrows have no effects.
- `GetRandomTradeCode` and the queue's internals are not modelled; they are shared state. The drawn code is a parameter, and the enqueue is the `Enqueued` outcome; whether `AddToQueueAsync` then succeeds is not modelled.
- The configuration singleton `SysCordInstance.Self.Hub` is not modelled; `VerifyLegality` is a parameter.
- Text.ParseUnsigned: accepts only ASCII decimal digits. At this call site `ushort.Parse` and `uint.Parse` also accept a leading sign (`Secret Id: +5` sets 5, and `-0` reads as 0) and trailing NUL characters; the model sends such rows to the invalid rows. Surrounding white space never reaches the parse, because the value is already trimmed.
- Trade.ApplyOverrides: stores the written value as given. Any truncation inside the PKHeX `SID`/`TID` setters is not modelled.
- Pokemon.Pkm: the entity's runtime type is fixed when the entity is generated. Its other contents are an opaque `body`.
- Trade.TradeText: the species-name lookup with an index below zero or past the end of the table is the `Faulted` outcome. The exception's type and message are not modelled.
- Trade.TextTrade: the collaborators (Showdown parser, `GetTemplate`, `GetLegal`, legality analysis, `CanBeTraded`, stat recalculation, download) are taken never to throw; an exception escaping one of them is not a modelled outcome. The same holds for `Trade.TradeText` and `Trade.TradeAttach`.
