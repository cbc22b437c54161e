# GUPPI core, modelled in Dafny

GUPPI is a Discord bot. This project models and proves properties of three parts of it.

**`guppi.py`**
- The `startup_times` ledger. It keeps the last three load times and averages them.
- The `settings` table. It has no primary key. It is seeded with `bottoken` and `statuschannel_id`, filled in by prompting on the console, and written through an upsert.
- The version watch. It takes the token off the file's `#Version:` marker line and restarts the bot when the token changes.
- The refresh loop of the status message. It keeps a window of the last ten edit costs that sets how long the next sleep is. It also handles replacement messages.

**`cogs/aboutme.py`**
- The `aboutme` table, keyed by `(user_id, info)`.
- On-demand seeding of the four profile fields.
- The configure view, which splits fields into `remops` and `addops` by toggle and flips one toggle per selection.
- The modal and the profile embed. Both show the toggled-on fields in the fixed order name, birthday, country, hobbies. An `age` field comes right before a birthday that parses.
- `age_from_string`.

**`cogs/automod.py`**
- The per-guild filter file and `load_filter`.
- `escape_formatting_chars` and the search for the custom-emoji marker `<:+:>`.
- What `add_filterword` and `remove_filterword` do to the file.
- `on_message`: its guards and the censor loop.

**How the model is built**
- SQLite tables are Dafny values: `seq` for a table without a key, `map` for a keyed one.
- An object whose methods write the database is a `class`, and each method states the new state through a specification function.
- Something outside the process becomes a parameter:
  - the lines typed at the console;
  - today's date;
  - the SQLite row order;
  - the contents of files;
  - the outcomes and costs of Discord edits.
- The files are:

| file | content |
|---|---|
| `options.dfy` | the `Option` type |
| `samples.dfy` | bounded windows and their means |
| `text.dfy` | the Python string operations used (`in`, `replace`, `strip`, `lower`, `readlines`) |
| `guppi_ledger.dfy` | the startup-time ledger |
| `guppi_settings.dfy` | the settings table |
| `guppi_version.dfy` | the version watch |
| `guppi_status.dfy` | the status loop |
| `aboutme_age.dfy` | `age_from_string` |
| `aboutme.dfy` | the profile table, views, modal and embed |
| `automod_format.dfy` | escaping and the emoji marker |
| `automod_filter.dfy` | the filter file |
| `automod_censor.dfy` | `on_message` |

**How the marker line is read**
- The marker line is read with `strip('#Version: \n')`. That call removes any of those characters from both ends; it does not remove a prefix. `VersionWatch.ReleaseLosesLetters` shows the effect: the line `#Version: Release` reads as `Relea`.

## Model

| member | source | states |
|---|---|---|
| StartupLedger.StartupTimes.Record | guppi.py:174-184 | the table becomes the newest three of the old rows plus the new load time, in order; it holds one to three rows; the average returned is the mean of those rows |
| StartupLedger.LedgerKeepsNewest | guppi.py:176-183 | after any number of ready events (at least one), the ledger is the last min(n, 3) of everything ever recorded, oldest first |
| Samples.NewestAbsorbs | guppi.py:178-180 | trimming to the newest n early does not change what a later trim keeps |
| SettingsStore.FirstRow | guppi.py:97-102 | the index of the first row for the setting, before which no row has that name; None exactly when `check_setting` is false |
| SettingsStore.RetrieveSetting | guppi.py:104-108 | a value comes back exactly when a row exists, and it is the value of the first row for that setting |
| SettingsStore.Upsert | guppi.py:110-117 | afterwards the setting reads back as the new value; every other setting reads as before; a row is added only when none existed; with rows present, every row for that setting gets the value and the others are untouched |
| SettingsStore.Seed | guppi.py:81-84 | the table is extended only; every required name now has a row; each added row is NULL, for a name that had no row, and no name is added twice |
| SettingsStore.SeedRetrieve | guppi.py:81-84 | seeding changes no value that can be read; a seeded name that had no row reads as NULL |
| SettingsStore.SeedPresent | guppi.py:81-84 | when every required name already has a row, seeding adds nothing |
| SettingsStore.SeedPrompts | guppi.py:81-87 | after seeding, a prompt is due exactly when it was due before |
| SettingsStore.FirstNonEmpty | guppi.py:88-91 | the first typed line that is not empty, with every earlier line empty, or None when all are empty |
| SettingsStore.PromptRound | guppi.py:85-95 | nothing is asked when the setting has a value; otherwise the first non-empty line is stored and every line before it was empty; at end of input the table is unchanged; other settings keep their values |
| SettingsStore.InitConfigures | guppi.py:73-95 | a finished initialisation leaves both settings non-NULL |
| SettingsStore.InitKeeps | guppi.py:73-95 | a required setting that had a value keeps it, and other settings read as before |
| SettingsStore.InitConfiguredNoop | guppi.py:81-95 | on a configured table nothing is asked and nothing changes |
| SettingsStore.InitIdempotent | guppi.py:73-95 | initialising again after a successful run asks nothing and changes nothing |
| SettingsStore.InitTakesToken | guppi.py:85-95 | the token stored is the first non-empty line typed; with none, initialisation does not finish |
| SettingsStore.InitTakesChannel | guppi.py:85-95 | when the status channel was asked for, the value stored is the last line read, and that line is not empty |
| SettingsStore.FreshStoreTakesInput | guppi.py:73-117 | a fresh store gets exactly one NULL row per setting, in order; initialising it with the lines `""`, `abc`, `123` finishes after reading all three, with `abc` in the `bottoken` row and `123` in the `statuschannel_id` row |
| SettingsStore.Settings.UpdateSettings | guppi.py:110-117 | the table becomes the one `Upsert` specifies |
| SettingsStore.Settings.SeedSettings | guppi.py:81-84 | the table becomes the one `Seed` specifies for both required settings |
| SettingsStore.Settings.Prompt | guppi.py:85-95 | the new table, whether a value was stored and how many lines were read are those `PromptRound` specifies |
| SettingsStore.Settings.InitSettings | guppi.py:73-95 | the new table, whether both prompts finished and how many lines were read are those `Init` specifies |
| SettingsStore.Settings.Open | guppi.py:66-71 | the table after `Settings()` is the one `Init` specifies; both settings come back exactly when it finished, as the values the table holds; a configured table is left as it was |
| VersionWatch.FirstLine | guppi.py:132-133 | the first line of the file, with its newline; None exactly for an empty file |
| VersionWatch.ReadVersion | guppi.py:132-134 | there is a token exactly when the file is not empty, and it occurs in the first line |
| VersionWatch.TokenShape | guppi.py:133-134 | the token is the slice of the first line between a leading and a trailing run of marker characters, and it neither starts nor ends with one |
| VersionWatch.MarkerLineReads | guppi.py:133-134 | marker characters, then a token, then marker characters up to the newline: this line reads as the token |
| VersionWatch.ReadsAlpha | guppi.py:132-134 | the bot's own first line reads as `Alpha 0.0.1` |
| VersionWatch.ReleaseLosesLetters | guppi.py:134 | the line `#Version: Release` reads as `Relea`; the set is stripped, not a prefix |
| VersionWatch.VersionControl | guppi.py:216-224 | a restart exactly when the file is non-empty and its token is non-empty and differs from the captured one; the restart carries both tokens; an empty file stops the loop |
| VersionWatch.Watch | guppi.py:216-224 | every restart is into a non-empty token; the first differs from the captured one and each later one from the token before it; there are never more restarts than ticks |
| VersionWatch.WatchRestartsOnChange | guppi.py:216-224 | every restart goes to a non-empty token that differs from the one running; there are never more restarts than ticks |
| VersionWatch.WatchQuiet | guppi.py:216-224 | no restart happens exactly when every file read while the loop runs has an empty token or the captured one |
| StatusReport.NextDelay | guppi.py:214 | the delay is never negative; a tick lasts the five-second period when the average cost is at most five seconds; otherwise the delay is the average |
| StatusReport.Run | guppi.py:192-214 | each sleep is the delay the earlier edits' costs determine; each edit targets the last replacement sent, or the first message; the window is the newest ten costs |
| StatusReport.DelayForgets | guppi.py:211-214 | costs from before the last ten edits do not change the delay |
| StatusReport.ReplacementSticks | guppi.py:204-209 | once an edit finds the message gone, the replacement is edited on every later tick until the next replacement |
| StatusReport.NoReplacementKeepsFirst | guppi.py:191-209 | without a replacement the loop edits the first message throughout |
| AboutDates.ParseDate | cogs/aboutme.py:324-326 | the day, month and year of a matching string are in the pattern's ranges |
| AboutDates.AgeFromString | cogs/aboutme.py:318-336 | Some exactly when the string matches the pattern and names a real date; then the value is the difference in years, less one while this year's birthday is still ahead |
| AboutDates.AgeCountsBirthdays | cogs/aboutme.py:329-333 | the age is the number of the last birthday reached: that birthday has come, the next has not |
| AboutDates.Format | cogs/aboutme.py:324 | a date written as `dd.mm.yyyy` is ten characters |
| AboutDates.DigitChar | cogs/aboutme.py:324-326 | the digit character of n reads back as n |
| AboutDates.FormatParses | cogs/aboutme.py:324-326 | every date, written out, matches the pattern and parses back to itself |
| AboutDates.ParseFormats | cogs/aboutme.py:324-326 | a matching string with `.` separators that names a date is the written form of that date |
| AboutDates.NoThirtyFirstOfFebruary | cogs/aboutme.py:325-336 | `31.02.2000` matches but gives no age |
| AboutDates.NoYearZero | cogs/aboutme.py:325-336 | year `0000` matches but gives no age |
| AboutDates.LeapDay | cogs/aboutme.py:324-333 | 29 February gives an age only in a leap year; mixed separators and a final newline are accepted; the age steps up on the day itself |
| AboutDates.MalformedIsNone | cogs/aboutme.py:324-335 | a one-digit day, a thirteenth month, a two-digit year and `-` separators give no age |
| Aboutme.SeededWith | cogs/aboutme.py:34-37 | existing rows are untouched; every name gets a row; each added row belongs to the user, is NULL and is toggled on |
| Aboutme.AboutDb.SeedUser | cogs/aboutme.py:34-37 | the loop over the four fields leaves the table `Seeded` specifies |
| Aboutme.AboutDb.SeedUsers | cogs/aboutme.py:190-194 | the loop over the users leaves the table `SeededAll` specifies |
| Aboutme.AboutDb.SetToggle | cogs/aboutme.py:72 | the `UPDATE` of the toggle leaves the table `WithToggle` specifies |
| Aboutme.AboutDb.SetValue | cogs/aboutme.py:159 | the `UPDATE` of the value leaves the table `WithValue` specifies |
| Aboutme.SeededIdempotent | cogs/aboutme.py:34-37 | seeding twice is the same as seeding once |
| Aboutme.SeedStep | cogs/aboutme.py:34-36 | one more name only adds that row when it is missing |
| Aboutme.SeededAllCovers | cogs/aboutme.py:186-194 | every listed user has all four fields; existing rows are untouched; every added row is a NULL, toggled-on field of a listed user |
| Aboutme.Select | cogs/aboutme.py:38-39 | the selected names are exactly the user's fields with that toggle |
| Aboutme.SelectPartitions | cogs/aboutme.py:38-39 | `remops` and `addops` split the user's fields: each is in exactly one of them, and together they have as many entries as the user has rows |
| Aboutme.FlipMovesOne | cogs/aboutme.py:72-96 | after a selection the chosen field is selected by its new toggle and not by the other; every other field stays where it was |
| Aboutme.Without | cogs/aboutme.py:74-98 | the chosen option is removed; every other option is kept; a list without it is unchanged |
| Aboutme.ConfigView.constructor | cogs/aboutme.py:25-51 | the user is seeded; `remops`/`addops` are the toggled-on and toggled-off fields; a select is disabled exactly when it has nothing to offer |
| Aboutme.ConfigView.AddSelect | cogs/aboutme.py:67-76 | the select is enabled; the field is toggled on and the add options lose it; the remove options, both field lists and the remove select are unchanged; the next view reads the updated table, offers its own field lists and disables a select exactly when its list is empty |
| Aboutme.ConfigView.RemoveSelect | cogs/aboutme.py:91-100 | the select is enabled; the field is toggled off and the remove options lose it; the add options, both field lists and the add select are unchanged; the next view reads the updated table, offers its own field lists and disables a select exactly when its list is empty |
| Aboutme.Shown | cogs/aboutme.py:120-129 | each shown field is visible, comes from the list of names, and carries its stored value; every visible field in the list is shown |
| Aboutme.ShownAppend | cogs/aboutme.py:129 | the fields of two lists of names are the fields of the first followed by those of the second |
| Aboutme.ShownOne | cogs/aboutme.py:129 | one name gives its field with its stored value when it is visible, and nothing otherwise |
| Aboutme.RowsAreVisible | cogs/aboutme.py:120-128 | gathering the selected rows into a dictionary gives exactly the visible fields and their values |
| Aboutme.OrderVisible | cogs/aboutme.py:129 | re-ordering the visible fields by a list puts them in that list's order |
| Aboutme.RowOrderIrrelevant | cogs/aboutme.py:120-129 | the fields displayed are the toggled-on ones in the order name, birthday, country, hobbies, whatever order the rows arrive in |
| Aboutme.ShownDistinct | cogs/aboutme.py:129 | no shown field appears twice |
| Aboutme.ShownRows | cogs/aboutme.py:120-129 | the ordered fields are the shown fields of the profile |
| Aboutme.InputTexts | cogs/aboutme.py:130-136 | the loop builds exactly the inputs `ModalItems` specifies for the shown fields |
| Aboutme.ModalLabelsRoundTrip | cogs/aboutme.py:130-150 | each text input of the modal is filed under its own field again when submitted, with that field's value |
| Aboutme.LabelRoundTrip | cogs/aboutme.py:131-150 | the birthday marker comes off the label again, and other labels are their own field |
| Aboutme.PutNew | cogs/aboutme.py:150 | storing a new key in an ordered dictionary appends it |
| Aboutme.PutKeys | cogs/aboutme.py:150 | storing a key adds that key and no other, adds at most one entry, and keeps the keys distinct |
| Aboutme.CollectDistinct | cogs/aboutme.py:145-150 | the filed inputs never hold a key twice and are no more than the inputs |
| Aboutme.CollectModal | cogs/aboutme.py:146-150 | the submitted inputs are filed under their own fields, in the modal's order, with the typed values |
| Aboutme.WriteBackFrame | cogs/aboutme.py:158-159 | writing back adds no row, changes no toggle and leaves other users' rows alone |
| Aboutme.WriteBackSame | cogs/aboutme.py:158-159 | writing back values the table already holds changes nothing |
| Aboutme.UntouchedModalKeepsTable | cogs/aboutme.py:130-165 | submitting the modal without editing it leaves the table as it was |
| Aboutme.AboutModal.constructor | cogs/aboutme.py:106-136 | the user is seeded and the modal holds one input per shown field |
| Aboutme.AboutModal.Callback | cogs/aboutme.py:139-165 | the values are filed by field and written back, and the embed is the one `EmbedFields` gives |
| Aboutme.CreateAboutmeEmbed | cogs/aboutme.py:263-302 | the user is seeded and the embed fields are those of the shown profile |
| Aboutme.AddFields | cogs/aboutme.py:290-296 | the loop over the entries builds exactly the embed fields `EmbedFields` specifies |
| Aboutme.EmbedFieldsSize | cogs/aboutme.py:158-164 | the embed has one or two fields per entry |
| Aboutme.Texts | cogs/aboutme.py:290-296 | removing the age fields leaves text fields only |
| Aboutme.TextsAppend | cogs/aboutme.py:290-296 | removing the age fields works entry by entry |
| Aboutme.TextsOfEntry | cogs/aboutme.py:290-296 | each entry contributes exactly its own text field |
| Aboutme.FieldsForShape | cogs/aboutme.py:290-296 | an entry's fields end with its text; an age comes first exactly when the birthday parses |
| Aboutme.AgeIsOnlyAddition | cogs/aboutme.py:290-296 | without the age fields the embed is one field per entry, in order |
| Aboutme.AgePrecedesBirthday | cogs/aboutme.py:290-296 | an age field, with the age that birthday gives, sits right before every birthday that parses, and nowhere else |
| Formatting.Escape | cogs/automod.py:44-48 | the escaped word is longer by the number of formatting characters; its first character is a backslash exactly when the word starts with one of them |
| Formatting.UnescapeEscape | cogs/automod.py:44-48 | deleting the inserted backslashes gives back the word |
| Formatting.EscapeKeepsPlain | cogs/automod.py:44-48 | a word without formatting characters is left as it is |
| Formatting.EscapeChars | cogs/automod.py:44-48 | escaping brings in no character but the backslash, and keeps the last character |
| Formatting.EscapedNeverComment | cogs/automod.py:44-48 | an escaped word never starts with `#`, so its line is never read as a comment |
| Formatting.FindCustomEmoji | cogs/automod.py:33-42 | Some exactly when the marker occurs; then the start of its first occurrence and that start plus five |
| Text.Find | cogs/automod.py:114 | the first index where the pattern occurs, or None when it occurs nowhere |
| Text.ContainsIff | cogs/automod.py:114 | `p in s` exactly when `p` occurs at some index |
| Text.ReplaceAbsent | cogs/automod.py:126 | replacing a word that does not occur keeps the text |
| Text.ReplaceBySelf | cogs/automod.py:126 | replacing a word by itself keeps the text |
| Text.Lower | cogs/automod.py:111 | lower-casing keeps the length and works character by character; exactly the capital letters change; no capital is left; a small letter comes only from a letter |
| Text.LowerIdempotent | cogs/automod.py:67-73 | lower-casing twice is lower-casing once |
| Text.StripSlice | cogs/automod.py:23 | strip keeps a slice of the input with only stripped characters around it |
| Text.StripExact | cogs/automod.py:23 | strip removes exactly the edge runs around a part that neither starts nor ends with one of the characters |
| Text.StripDropLast | guppi.py:134 | a final strippable character, such as the newline, makes no difference |
| Text.IndexOf | guppi.py:133 | the first index of the character, or None when it does not occur |
| Text.LinesConcat | cogs/automod.py:18 | the lines `readlines` returns join back to the file |
| Text.ConcatLines | cogs/automod.py:91-96 | lines in which all but the last end with a newline read back as themselves once written |
| Text.LinesJoin | cogs/automod.py:77-78 | behind a complete last line, the lines of what is appended follow the lines of the file |
| FilterFile.Kept | cogs/automod.py:19-23 | no more lines than the file has, and each kept line holds a dash |
| FilterFile.KeptAppend | cogs/automod.py:20-23 | the filter works line by line |
| FilterFile.KeptOne | cogs/automod.py:20-23 | a single line is kept, stripped, exactly when it is not a comment and holds a dash |
| FilterFile.DashSurvives | cogs/automod.py:22-23 | stripping a line keeps its dash |
| FilterFile.SplitDashJoin | cogs/automod.py:27 | the word, a dash and the replacement give back the line, and the word has no dash |
| FilterFile.SplitDashOfJoin | cogs/automod.py:27 | a line built from a word without a dash splits back into that word and its replacement |
| FilterFile.Keys | cogs/automod.py:26-29 | one word per entry |
| FilterFile.Replacements | cogs/automod.py:26-28 | one replacement per entry |
| FilterFile.ZipMap | cogs/automod.py:30 | the dictionary's keys are exactly the words |
| FilterFile.ZipMapLastWins | cogs/automod.py:30 | a word listed more than once maps to the replacement of its last entry |
| FilterFile.LoadFilter | cogs/automod.py:16-31 | returns the words and the dictionary the file specifies |
| FilterFile.LoadedEntries | cogs/automod.py:16-31 | each entry is its word, a dash and its replacement; the keys are the words; the last entry for a word decides its replacement |
| FilterFile.NewlineLines | cogs/automod.py:77-78 | behind a complete last line, `"\n" + l` adds an empty line and then `l` |
| FilterFile.AppendAfterNewline | cogs/automod.py:77-78 | behind a complete last line, the appended line's entry is added and the empty line is ignored |
| FilterFile.ClosedEntries | cogs/automod.py:77-78 | completing an open last line with a newline keeps the file's entries |
| FilterFile.AppendAfterOpenLine | cogs/automod.py:77-78 | behind an open last line, that line is completed and reads as before, and the new line's entry is added |
| FilterFile.AppendLine | cogs/automod.py:77-78 | appending adds the new line's entry, whatever the file ended with |
| FilterFile.EntryKept | cogs/automod.py:20-23 | the line of a storable pair is kept as it is |
| FilterFile.EntryReadsBack | cogs/automod.py:20-29 | the line of a storable pair is one entry and splits back into the pair |
| FilterFile.AddedContent | cogs/automod.py:75-78 | the old file stays in front of what is appended, and the file is unchanged exactly when the word is already listed |
| FilterFile.AddThenLoad | cogs/automod.py:75-79 | a word already listed changes neither the words nor the dictionary; a new word is appended to the words and mapped to its replacement |
| FilterFile.AddedEntries | cogs/automod.py:76-78 | a new storable pair adds exactly its own line to the entries |
| FilterFile.Normalise | cogs/automod.py:66-73 | marked text is only lower-cased; other text is lower-cased and escaped, and removing the escapes gives the lower-cased text |
| FilterFile.NormaliseNoMark | cogs/automod.py:66-73 | normalising brings in no newline and no dash |
| FilterFile.NormaliseStorable | cogs/automod.py:66-79 | arguments without newlines, without a dash in the word and without whitespace at the outer ends are stored as a pair that reads back as itself |
| FilterFile.KeepLines | cogs/automod.py:94-96 | the kept lines come from the file and none starts with the word or is blank; every line that does neither is kept |
| FilterFile.KeepLinesAppend | cogs/automod.py:94-96 | the lines kept from two parts of a file are those of the first part followed by those of the second |
| FilterFile.KeepLinesOne | cogs/automod.py:94-96 | a single line is kept exactly when it neither starts with the word nor is blank |
| FilterFile.RemoveKeepsOthers | cogs/automod.py:89-96 | after removing a listed word, every line that neither starts with it nor is blank is still in the file |
| FilterFile.KeepLinesShaped | cogs/automod.py:91-96 | dropping lines keeps the file's shape |
| FilterFile.RemoveRereads | cogs/automod.py:89-96 | reading the rewritten file back gives exactly the kept lines |
| FilterFile.NoEntryFor | cogs/automod.py:20-29 | kept lines that are not indented give no entry for the word |
| FilterFile.RemoveClears | cogs/automod.py:88-97 | after the removal the word is no longer listed |
| FilterFile.FilterStore.AddFilterword | cogs/automod.py:60-80 | without a file nothing happens; otherwise the normalised pair is stored as `AddedContent` specifies |
| FilterFile.FilterStore.RemoveFilterword | cogs/automod.py:82-98 | without a file nothing happens; otherwise the file is rewritten as `RemovedContent` specifies |
| Censor.Reaction | cogs/automod.py:104-110 | the bot's own messages are ignored, then direct messages, then guilds without a filter file, in that order |
| Censor.CensorLoop | cogs/automod.py:110-127 | a scan that ends with `send` unset started with it unset, did not abort and left the text as it was; an aborted scan has `send` set |
| Censor.OnMessage | cogs/automod.py:100-134 | the reaction `Reaction` specifies: the bot's own messages and direct messages are ignored first |
| Censor.CensorWords | cogs/automod.py:110-127 | the loop over the words ends where `CensorLoop` says |
| Censor.NoMatch | cogs/automod.py:113-114 | words that do not occur leave the text and `send` as they are |
| Censor.FirstMatchDecides | cogs/automod.py:113-127 | the first word that occurs decides: the emoji branch aborts, otherwise the word is replaced and the scan goes on with `send` set |
| Censor.SendSticks | cogs/automod.py:127 | once set, `send` stays set |
| Censor.MarkerFreeNoAbort | cogs/automod.py:115-121 | without the marker in any replacement the scan never aborts |
| Censor.FoundNotClean | cogs/automod.py:113-127 | when some word occurs, the scan sets `send` or aborts |
| Censor.CleanIffNoWord | cogs/automod.py:104-129 | a message that passes the guards is left alone exactly when no filter word occurs in its lower-cased text |
| Censor.CensoredIffWord | cogs/automod.py:104-134 | with no marker in any replacement, such a message is censored exactly when some filter word occurs in it |
| Censor.SelfReplacementKeepsText | cogs/automod.py:126 | when every replacement is its own word, the text is unchanged |

## Left out

- Discord itself is not modelled: the client, presence, embeds as objects, views and buttons, interactions, `respond` and `delete_after`. Only the fields and the values the code computes are kept.
- SQLite is not modelled: `CREATE TABLE`, connections and commits. Tables are values, and the row order of a `SELECT` without `ORDER BY` is a parameter.
- The `CHECK (toggle < 2)` constraint allows negative toggles. The partition lemma therefore assumes every toggle is 0 or 1, which is all the cog ever writes.
- The process effects are not modelled: `os.execv`, `os.system('clear')`, `sys.exit`, `print` and logging. A restart is returned as a value.
- `input()`, `asyncio.sleep`, `tasks.loop` and `time.perf_counter` are not modelled. The console is the sequence of typed lines, and the clock is given as the cost of each edit. The endless loops are modelled as finite runs of ticks.
- `round(...)` on load times and averages is not modelled. Durations are exact `real` numbers, so the display rounding is not captured.
- StartupLedger.StartupTimes.Record: the load time is taken as given. Measuring it with `perf_counter` is left out.
- The deletion of old status messages (guppi.py:169-173) is left out, because it only talks to Discord.
- `on_command_error`, `cog_command_error`, `MyView` and the `restart` command are left out. They do not change the modelled state.
- `list_filterwords` is left out. It only formats what `load_filter` returns.
- The default-setting branch (guppi.py:90-92) can never run, because both defaults are `'Invalid'`. An empty line is modelled as a re-prompt only.
- Lower-casing covers ASCII letters only. Python's `str.lower` handles all of Unicode.
- `\d` in the date pattern covers ASCII digits only. Python's regex also accepts other Unicode digits.
- The file encoding is not modelled: the `r+` open without `encoding` in `remove_filterword` and the encode/decode in `on_message`. Text is a sequence of characters.
- The emoji branch of `on_message` (cogs/automod.py:117-121) adds the result of `bot.get_emoji` to a string. `get_emoji` is given a string, not an id, and returns `None`, so the handler raises. The model ends such a scan as the `EmojiFailure` outcome and does not model the emoji lookup.
- Discord's limits on embed field values are not modelled. `on_message` deletes the message (cogs/automod.py:130) before it sends the embed (cogs/automod.py:134). When the censored text is empty or too long for a field, Discord refuses the send, so the message is gone and nothing is posted. The model's `Censored(text)` stands for the deletion and the attempted post.
- `bot.get_message(message.id)` is taken to return the message. A miss in the message cache, where `msg.channel` raises, is not modelled.
- The second `load_filter` call at the end of `add_filterword` and `remove_filterword` is left out. Its result is unused.
- `remove_filterword` compares the raw argument with the stored words. The stored words are normalised by `add_filterword`, so an argument that would be escaped is never found. The model follows the code and adds nothing for this case.
- FilterFile.RemoveClears: proved only for files where no line starts with whitespace. An indented entry is kept by the `startswith` test, so for such files the word can remain listed.
- VersionWatch.Watch: after a restart the model takes the token that triggered it as the new `botversion`. In the bot, the restarted process reads the file again in `on_ready` (guppi.py:130-134); if the file changed in between, the token it captures may differ.
- All file contents are taken as they read after Python's text-mode newline translation, so a `\r\n` in the file is a single `\n` in the model.
- `cogs/generalutility.py` and `cogs/setup.py` are not part of this model.
