# dreampop: the store effects of the note, todo and space commands

dreampop is a terminal note list. Every command is a cobra command. Its
`Run` closure opens a bbolt transaction and changes a small set of buckets:

- **Spaces.** A *space* is any root bucket holding notes. The key `self` of
  the bucket `internal` names the *active* space. Note commands work on the
  active space. Checked-off notes go to the bucket `history`.
- **Todos.** The todo commands use the fixed bucket `todo`. Checked items move
  to `todo_history` under their original key.
- **Keys.** Every note and todo key is the 8-byte big-endian encoding of a uint64 (`itob`). The one other key is `self`.
- **Startup.** Before every command, five initialisation transactions create
  the fixed buckets and default `self` to `notes`.

This project models the store as a state machine over an abstract bbolt
database and proves what each command does to it.

- **Store.** A root is a map from bucket name to bucket (`Bolt.Tx`). A bucket
  is a sequence counter plus a map from byte keys to texts (`Bolt.Bucket`).
- **Transactions.** A write transaction's callback is a function from the
  committed root to an `Outcome`: a new root, or an error. `Bolt.Committed`
  states the all-or-nothing rule. An error, a panic, `os.Exit` or a return
  before `Commit` (the deferred `Rollback`) all leave the root as it was.
- **The database.** `Bolt.Db` is a class holding the committed root. Its
  `Update` method commits or discards an outcome. Each command is a method
  on a `Db` whose postcondition names the new root.
- **Loops.** The loops of the source are methods with loop invariants. These
  are proved equal to a reference function:
  - the argument loop of `check`/`rm`;
  - the history loop;
  - the deletion and splitting loops of the check multi-select.

  The bucket walk of `space ls` is instead specified directly: it lists
  exactly the non-reserved buckets, in ascending order.
- **Prompts.** A prompt's answer, or a select's choice, is a parameter of the
  command method. The prompt validators are guard predicates.

Modules, one file each:

| module | what it holds |
|---|---|
| `Wrappers` | `Option` and `Result` |
| `Keys` | the key encoding and its order |
| `Strconv` | `strconv.Atoi`, `strconv.Itoa`, Go's integer conversions and `strings.Split` on commas |
| `Bolt` | the abstract store, transactions and `Db` |
| `Layout` | the fixed bucket names |
| `NoteCommands` | cmd/note.go |
| `TodoCommands` | cmd/todo.go |
| `SpaceCommands` | cmd/space.go |
| `Startup` | the `init` functions of cmd/root.go and cmd/todo.go, in Go's order |

Guards of the form `len(args) > 1` in `space add`, `space edit` and
`space rm` are modelled as written. Each of these commands then treats a
single argument as no argument.

## Model

| member | source | states |
|---|---|---|
| Keys.Itob | cmd/note.go:28-33 | a key is always exactly 8 bytes |
| Keys.ItobRoundTrip | cmd/note.go:28-33 | decoding a key big-endian (`binary.BigEndian.Uint64`) gives back the number it encodes |
| Keys.ItobOnto | cmd/note.go:28-33 | every 8-byte key encodes the number it decodes to |
| Keys.ItobOrder | cmd/note.go:28-33 | byte-lexicographic order of two keys holds exactly when their numbers are in numeric order (both directions) |
| Keys.ItobInjective | cmd/note.go:28-33 | two numbers have the same key exactly when they are equal |
| Keys.CursorAscending | cmd/note.go:89-91 | a cursor's keys are visited in ascending byte order, so the numbers a listing prints strictly ascend |
| Strconv.ToUint64 | cmd/note.go:109 | `uint64(n)` keeps a non-negative n and wraps a negative n to n + 2^64 |
| Strconv.KeyOf | cmd/note.go:109 | the key an argument addresses is 8 bytes wide |
| Strconv.ListedKeyRoundTrip | cmd/note.go:89-91 | a key number a listing prints, up to the int64 maximum, parses back with `Atoi` and addresses the same key |
| Strconv.HighKeysNeedNegativeArguments | cmd/note.go:105-109 | a key above the int64 maximum cannot be named by its printed number. The negative number that wraps onto it names it, and no other int64 does |
| Strconv.ToInt64 | cmd/note.go:200 | `int(u)` of a uint64 is undone by `uint64(...)` |
| Strconv.ItoaRoundTrip | cmd/note.go:200 | `Atoi` reads back every number `Itoa` writes, and `Itoa` never writes a comma |
| Strconv.Comma | cmd/note.go:218 | the position found is the first comma of the text, and there is none exactly when the text has no comma |
| Strconv.SplitAtComma | cmd/note.go:218 | splitting `head,tail` gives the head as first field, the tail's text up to its own first comma as second field, and the whole tail after the first comma; the second field is the whole tail exactly when the tail has no comma |
| Bolt.CreateBucket | cmd/todo.go:35 | the creation succeeds exactly for a non-empty name that is absent, adding it empty and changing nothing else |
| Bolt.CreateBucketIfNotExists | cmd/root.go:22 | the creation succeeds for every non-empty name; the bucket exists afterwards. When it existed before, the root is left as it was; otherwise the root gains an empty bucket of that name and nothing else changes |
| Bolt.DeleteBucket | cmd/note.go:328 | the deletion succeeds exactly when the bucket exists. It removes that bucket only: no bucket is added, and the others keep their contents |
| Bolt.Committed | cmd/space.go:45-63 | a successful callback's root is committed; on an error the root is unchanged |
| Bolt.PutNext | cmd/note.go:69-71 | allocate-then-put succeeds exactly when the bucket exists, and changes no other bucket |
| Bolt.NextKeyFresh | cmd/note.go:70-71 | while every key was issued by the counter and the counter is below the maximum, the next key is new, sorts after every existing key, and keeps all keys issued |
| Bolt.Db.Update | cmd/note.go:68-75 | the committed root becomes `Committed(old root, outcome)`, and the error is reported exactly when the callback failed |
| NoteCommands.ReadSelfCases | cmd/note.go:339-345 | `self()` panics without `internal`, returns the stored name when `self` is set and "" when not. A space is active exactly when `self` is set to an existing bucket's name |
| NoteCommands.AddStoresUnderNextSequence | cmd/note.go:68-72 | add succeeds exactly when `self` names an existing space. The text then sits under the counter's next number, the counter advances by one, and no other key or bucket changes. When every key of the space was issued by its counter and the counter is below the maximum, the new key is fresh and sorts last |
| NoteCommands.Add | cmd/note.go:38-77 | the first argument, or else a non-empty prompt reply, is added; an aborted or empty reply changes nothing |
| NoteCommands.EditOverwritesNotesBucket | cmd/note.go:137-143 | as written, edit puts the new text under the key in the bucket `notes` and changes no other bucket |
| NoteCommands.EditMissesActiveSpace | cmd/note.go:137-143 | with `self` naming another space that holds the note, edit leaves that note as it was and adds the key to `notes` instead |
| NoteCommands.EditActiveOverwrites | cmd/note.go:103-113 | the corrected edit succeeds exactly when the lookup finds the key in the active space. It then overwrites only that key, there |
| NoteCommands.Edit | cmd/note.go:101-147 | a failed lookup or an aborted or empty reply changes nothing; otherwise the as-written write is committed |
| NoteCommands.SweepArgs | cmd/note.go:158-172 | the argument loop computes the reference function `Sweep` |
| NoteCommands.ArchiveAll | cmd/note.go:176-179 | the history loop computes the reference function `Archive` |
| NoteCommands.CheckCallback | cmd/note.go:155-183 | the callback of check with arguments computes `CheckTx` |
| NoteCommands.FirstListedOnce | cmd/note.go:158-172 | the texts collected are one per distinct listed key present in the space, however often each is listed |
| NoteCommands.SweepMoves | cmd/note.go:158-172 | when every argument parses, the loop removes every listed key from the active space and collects their texts in first-listing order |
| NoteCommands.SweepFails | cmd/note.go:159-163 | an argument that does not parse, or an active space that does not resolve, fails the loop |
| NoteCommands.ArchiveKeeps | cmd/note.go:176-179 | below the counter maximum, the history loop advances the counter once per text, keeps every earlier entry, and adds only keys above the old counter |
| NoteCommands.ArchivePlaceAt | cmd/note.go:176-179 | below the counter maximum, the i-th text lands under the key of the old counter + 1 + i |
| NoteCommands.ArchivePlaces | cmd/note.go:176-179 | below the counter maximum, every archived text lands under the key of the old counter + 1 + its position |
| NoteCommands.SweepActive | cmd/note.go:158-172 | with the active space resolved and every argument parsing, the loop yields the drained space and the moved texts |
| NoteCommands.MovedCount | cmd/note.go:158-172 | the number of moved texts equals the number of distinct listed keys present, and is at most the number of arguments |
| NoteCommands.CheckMovesToHistory | cmd/note.go:155-183 | check with arguments removes each listed present key from the active space and puts each removed text into `history`; no other bucket changes |
| NoteCommands.ArchiveAppendsInOrder | cmd/note.go:174-182 | below the counter maximum, texts are appended to `history` in order under fresh keys, each sorting after every entry it already had; nothing is lost and keys stay issued |
| NoteCommands.CheckArchivesInOrder | cmd/note.go:155-183 | with `history` present and any counter, check commits exactly the drained active space plus `history` with the moved texts appended; at most one text per argument moves |
| NoteCommands.BadArgumentDiscardsAll | cmd/note.go:160-163 | an unparsable argument or an unresolved active space fails the callback of check and of rm, so the store is unchanged |
| NoteCommands.RmDeletesListed | cmd/note.go:242-260 | rm with arguments deletes exactly the listed keys from the active space and writes nothing else, `history` included |
| NoteCommands.Check | cmd/note.go:153-234 | the store after check is `CheckRun`. If argument parsing fails, the store is unchanged. Otherwise the multi-select's deletion and archive follow |
| NoteCommands.Pick | cmd/note.go:190-233 | the multi-select path leaves the store as `Picking` describes |
| NoteCommands.DeleteTicked | cmd/note.go:215-223 | the deletion loop computes the reference function `DeletePicked` |
| NoteCommands.TickedTexts | cmd/note.go:227-231 | the splitting in the history loop computes the reference function `PickedTexts`, failing on an option without a comma |
| NoteCommands.CheckOptionFields | cmd/note.go:198-201 | a note's option leads back to the note's key. Its second field is the note's text up to the first comma, and is the whole text exactly when the text has no comma |
| NoteCommands.CheckOptionTruncates | cmd/note.go:230 | the note "eggs,milk" is archived as "eggs" |
| NoteCommands.OptionKeys | cmd/note.go:218-220 | ticking notes deletes exactly their keys, in order |
| NoteCommands.OptionTexts | cmd/note.go:227-230 | as written, ticked notes reach `history` cut at their first comma |
| NoteCommands.OptionTextsIntended | cmd/note.go:227-230 | as intended, ticked notes reach `history` with their whole text |
| NoteCommands.DeletePickedRemoves | cmd/note.go:215-223 | the deletion loop removes exactly the ticked keys and keeps the counter |
| NoteCommands.PickingChecksOff | cmd/note.go:190-233 | ticking notes of the active space commits the space without them and `history` with their texts appended, and changes nothing else |
| NoteCommands.PickArchiveIntendedCommits | cmd/note.go:225-233 | the corrected archive transaction commits `history` with the whole texts appended, and nothing else |
| NoteCommands.IntendedArchive | cmd/note.go:225-233 | below the counter maximum, with the corrected split, every ticked note's whole text lands, in order, under the history counter's next numbers; earlier entries are kept |
| NoteCommands.Rm | cmd/note.go:236-295 | rm commits the argument transaction; without arguments, or after them, nothing is ticked and the store is unchanged |
| NoteCommands.HistoryCleanEmpties | cmd/note.go:328-329 | history clean leaves `history` empty with counter 0 and every other bucket untouched |
| NoteCommands.HistoryClean | cmd/note.go:316-337 | the command commits the clean transaction |
| TodoCommands.InitCreatesOnlyWhenAbsent | cmd/todo.go:35-38 | startup creates `todo` and `todo_history` empty when absent and leaves the store exactly as it was when they exist |
| TodoCommands.AddStoresUnderNextSequence | cmd/todo.go:83-87 | todo add succeeds exactly when `todo` exists. Any text, the empty one too, goes under the next sequence number. The counter advances and nothing else changes |
| TodoCommands.Add | cmd/todo.go:76-108 | commits `AddTx` of the text `AddText(args, reply, 1)` chooses: the first argument when there are two or more, otherwise the prompt's reply. An aborted prompt changes nothing |
| TodoCommands.AddIntended | cmd/todo.go:81 | commits `AddTx` of `AddText(args, reply, 0)`: with any argument the first is stored, as in note add |
| TodoCommands.AddOneArgumentPrompts | cmd/todo.go:81 | with `todo` present, `todo add milk` as written does not put "milk" under the next sequence number, for every reply other than "milk". As intended, it does |
| TodoCommands.EditOverwritesOnlyThatKey | cmd/todo.go:161-167 | a found key gets the new text, with nothing else changed; the lookup fails on a missing argument, a parse error or an absent key |
| TodoCommands.Edit | cmd/todo.go:128-172 | a failed lookup or an aborted prompt changes nothing; otherwise the write is committed |
| TodoCommands.CheckMovesUnderSameKey | cmd/todo.go:180-203 | an absent key fails, with both buckets unchanged. A present key leaves `todo` and its text lands in `todo_history` under the same key, overwriting; nothing else changes |
| TodoCommands.Check | cmd/todo.go:174-205 | the two transactions commit one after the other, the second only after the first succeeded |
| TodoCommands.FreshStoreKeepsTodoKeys | cmd/todo.go:25-67 | a fresh store satisfies the key invariant after startup |
| TodoCommands.AddKeepsTodoKeys | cmd/todo.go:83-87 | below the counter maximum, add keeps the invariant: every `todo` key issued by its counter, and history keys issued and not in `todo` |
| TodoCommands.EditKeepsTodoKeys | cmd/todo.go:161-167 | edit keeps the key invariant |
| TodoCommands.CheckKeepsTodoKeys | cmd/todo.go:180-203 | check keeps the key invariant |
| TodoCommands.CheckNeverOverwritesHistory | cmd/todo.go:199-203 | under the invariant the checked key is new to `todo_history`, so no earlier entry changes. The todo commands and startup keep the invariant, and so does `note add` with `todo` active. Deleting `todo` breaks it (`Startup.RmTodoBreaksTodoKeys`), and so can `note add` with `todo_history` active (`Startup.NoteAddIntoTodoHistory`) |
| TodoCommands.RmDeletesKey | cmd/todo.go:229-235 | rm succeeds exactly when the argument parses and `todo` exists. Afterwards the key is absent and nothing else changes. An absent key is a no-op. The invariant is kept |
| TodoCommands.Rm | cmd/todo.go:225-240 | the command commits the rm transaction |
| SpaceCommands.AddArgsCreatesIfMissing | cmd/space.go:40-63 | a reserved or empty name is refused with no change; otherwise an existing space is kept and a missing one is created empty |
| SpaceCommands.AddPromptRefusesExisting | cmd/space.go:85-103 | a name the validator accepts is created empty if absent; an existing name fails with no change |
| SpaceCommands.Add | cmd/space.go:36-104 | the argument path runs first, and an error there ends the command; the prompt follows, and a valid reply is created |
| SpaceCommands.List | cmd/space.go:225-231 | the listing holds exactly the buckets other than `internal` and `history`, in ascending order |
| SpaceCommands.SelectMakesActive | cmd/space.go:242-267 | select fails with no change on a reserved or missing name. Otherwise the name becomes the active space and only `internal.self` changes |
| SpaceCommands.SelectPromptAgrees | cmd/space.go:271-301 | for every space the prompt offers, the prompt path equals the argument path and makes the choice active |
| SpaceCommands.Select | cmd/space.go:239-302 | the argument or the prompt's choice is committed as `self` by the respective transaction |
| SpaceCommands.DeleteArgsNeverCommits | cmd/space.go:310-332 | the argument path of space rm always fails and leaves the store unchanged, even when its guards pass |
| SpaceCommands.DeleteKeepsActiveSpace | cmd/space.go:312-330 | the corrected delete succeeds exactly when the guards pass and the space exists. It then removes that space only, never `internal`, `history` or the active space, so the active space still resolves. The prompt path agrees on existing spaces |
| SpaceCommands.DeleteArgsKeepsSpace | cmd/space.go:324-331 | an existing, unselected space survives the as-written argument path and is removed by the corrected one |
| SpaceCommands.Delete | cmd/space.go:308-366 | with two or more arguments the store is unchanged; otherwise the prompt's choice is deleted if the guards allow |
| SpaceCommands.RenameGuards | cmd/space.go:117-140 | rename reaches the move exactly when the destination is not reserved or empty and the source exists; the destination then exists, created empty if it was absent |
| SpaceCommands.RenameFormAlwaysExits | cmd/space.go:154-200 | as written, the interactive rename exits with no change whatever is typed |
| SpaceCommands.RenameFormReachesMove | cmd/space.go:188-200 | the corrected form reaches the move with the validated destination present, created empty if absent |
| Startup.StartupSteps | cmd/root.go:12-84 | each startup transaction leaves the root as a single bucket update |
| Startup.StartedIsUpdate | cmd/root.go:12-84 | the whole startup sequence is one root update of the five fixed buckets |
| Startup.StartupCreatesFixedBuckets | cmd/root.go:22-68 | after startup `notes`, `history`, `internal`, `todo` and `todo_history` exist and no other bucket is added; every other existing bucket keeps its contents |
| Startup.StartupSetsSelfOnlyIfUnset | cmd/root.go:74-77 | `self` becomes "notes" only when it was unset; a set value and every other key and the counter of `internal` are kept |
| Startup.StartupSelfDefault | cmd/root.go:74-77 | an existing `self` is kept; an unset one makes `notes` the active space |
| Startup.StartupIdempotent | cmd/root.go:12-84 | running startup twice gives the same store as running it once |
| Startup.StartupListedSpaces | cmd/root.go:22-68 | after startup the space listing includes `notes`, `todo` and `todo_history`, and `internal` and `history` are reserved |
| Startup.StartupKeepsActiveSpace | cmd/root.go:58-84 | an active space before startup is still the active space after it |
| Startup.RmTodoBreaksTodoKeys | cmd/space.go:358-364 | the `space rm` prompt may delete `todo`. After the next startup, `todo` is empty with counter 0, the next key `todo add` issues is already in `todo_history`, and the todo invariant fails |
| Startup.StartupKeepsTodoKeys | cmd/todo.go:25-67 | startup keeps the todo key invariant, since it only creates missing buckets |
| Startup.NoteAddOnTodoIsTodoAdd | cmd/note.go:68-72 | `note add` with `todo` active does exactly what `todo add` does |
| Startup.NoteAddIntoTodoHistory | cmd/note.go:68-72 | with `todo_history` active, `note add` stores under that bucket's next counter number. An earlier checked todo there is replaced, such a bucket was not issued by its counter, and a key still in `todo` breaks the todo invariant |
| Startup.Run | cmd/root.go:12-84 | the startup method leaves exactly the store `Started` describes |

## Left out

- db/db.go is not part of this model. Opening the database file and the data directory is I/O; the model starts from a store value.
- main.go and command registration are left out. So is the panic recovery in `Execute`. A panic is modelled as an error that rolls its transaction back and ends the command.
- Prompts, forms and selects are not modelled as UI. Their answers are parameters, and their validators are guard predicates. Prompt `CharLimit(100)` is not modelled.
- Printing is not modelled. This covers `note ls`, `history`, `todo ls`, `todo history`, `space self` and `slog` messages. The key order that listing relies on is proved (`Keys.CursorAscending`).
- The note rm multi-select is never run, so it ticks nothing. `NoteCommands.Rm` states that it changes nothing.
- NoteCommands.Pick: listing the active space panics on a key shorter than 8 bytes. That is not modelled, because the program only ever writes 8-byte keys.
- bbolt's single-writer lock is not modelled. Nor is the deadlock it causes for the nested write transactions of `note check` (cmd/note.go:174) and `space select` (cmd/space.go:261); both are modelled as sequential steps.
  - For note check, the inner step changes only `history`. The active space is never `history`, since select refuses reserved names, so this equals applying the step inside the outer transaction.
- The effect of `tx.MoveBucket` in `space edit` is not visible. Rename is modelled up to the root that `MoveBucket` receives (`RenamePrepare`, `RenameFormTx`). The interactive form that follows the argument path after it commits is not modelled.
- Bolt.Issued is a ghost predicate, so the invariant that every key was issued by its bucket's counter is a proof device, not program state.
- NoteCommands.AddStoresUnderNextSequence: freshness and order of the new key are stated only below the uint64 counter maximum, and only for a space whose keys were all issued by its counter (`Bolt.Issued`). The program can break that premise: `notes` after the as-written `note edit` with another space active (`NoteCommands.EditMissesActiveSpace`), and `todo_history`, whose counter `todo check` never advances (`Startup.NoteAddIntoTodoHistory`). The same counter bound applies to NoteCommands.ArchivePlaceAt, NoteCommands.ArchiveKeeps, NoteCommands.ArchivePlaces, NoteCommands.ArchiveAppendsInOrder, NoteCommands.IntendedArchive and TodoCommands.AddKeepsTodoKeys. At the maximum, `NextSequence` wraps to 0 (`Bolt.NextSequence`), which the program never reaches in practice.
- bbolt's limits on key and value sizes are not modelled. Nor is its refusal to delete or overwrite a key holding a nested bucket (no command creates nested buckets). B+tree pages, mmap and durability are left out too.
- `todo ls`/`todo history` and `space self` only read and print; they have no store effect to model.
- Bucket names and texts are sequences of Unicode characters, not Go byte strings, so invalid UTF-8 cannot be represented. The core only compares names, splits at the ASCII `,` and orders 8-byte keys, which this does not affect.
- NoteCommands.PickedKey: a ticked option whose key field does not parse gives key 0. Go's `Atoi` gives 0 only on a syntax error and the clamped int64 bound on a range error. Options built by `CheckOption` always parse, so this case is not reached.

## Findings

| source | as written | input that shows it | evidently intended | confidence | as-written member | corrected member |
|---|---|---|---|---|---|---|
| cmd/note.go:142 | `note edit` writes the new text into the bucket `notes`, whatever space is active | `self` = "work", `work` holds key 1 = "draft": `edit 1` leaves "draft" and adds key 1 to `notes` | overwrite the key in the active space, where the lookup found it | high, not executed | NoteCommands.EditMissesActiveSpace | NoteCommands.EditActiveOverwrites |
| cmd/space.go:330-331 | the argument path of `space rm` deletes the bucket, then returns before `Commit`, so the deferred `Rollback` undoes it | `space rm work x` with `self` = "notes" and a space `work`: `work` is still there | commit the deletion the guards allow | high, not executed | SpaceCommands.DeleteArgsNeverCommits | SpaceCommands.DeleteKeepsActiveSpace |
| cmd/todo.go:81 | `todo add` stores the argument only when given two or more arguments | `todo add milk` prompts instead of storing "milk" | store the first argument whenever there is one, as `note add` does | medium, not executed | TodoCommands.AddOneArgumentPrompts | TodoCommands.AddIntended |
| cmd/space.go:172 | both inputs of the rename form store into the source name, so the destination stays "" and `CreateBucketIfNotExists("")` exits | any answers, e.g. "work" and "play" | the second input sets the destination | high, not executed | SpaceCommands.RenameFormAlwaysExits | SpaceCommands.RenameFormReachesMove |
| cmd/note.go:228-230 | the check multi-select archives the second comma-separated field of the option "key,text" | ticking the note "eggs,milk" archives "eggs" | archive the whole text after the first comma | high, not executed | NoteCommands.CheckOptionTruncates | NoteCommands.IntendedArchive |
