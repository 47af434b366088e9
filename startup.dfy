/**
 * Startup (the `init` functions of cmd/root.go and cmd/todo.go), run in Go's
 * order before every command: root.go's three transactions, then todo.go's
 * two.
 */
module Startup {
  import opened Wrappers
  import opened Keys
  import opened Bolt
  import opened Layout
  import opened NoteCommands
  import opened TodoCommands
  import opened SpaceCommands

  /** The first two transactions (cmd/root.go:12-33 and 35-56): create-if-not-exists. */
  function InitNotes(db: Tx): Tx
  {
    Committed(db, CreateBucketIfNotExists(db, Notes))
  }

  function InitHistory(db: Tx): Tx
  {
    Committed(db, CreateBucketIfNotExists(db, History))
  }

  /**
   * The third (cmd/root.go:58-84): create `internal` if missing and set
   * `self` to "notes" only when it has no value.
   */
  function InternalTx(db: Tx): Outcome
  {
    match CreateBucketIfNotExists(db, Internal)
    case Err(e) => Err(e)
    case Ok(t) =>
      Ok(if Get(t[Internal], SelfKey).Some? then t else t[Internal := Put(t[Internal], SelfKey, Notes)])
  }

  function InitInternal(db: Tx): Tx
  {
    Committed(db, InternalTx(db))
  }

  /** The whole startup sequence. */
  function Started(db: Tx): Tx
  {
    InitTodoHistory(InitTodo(InitInternal(InitHistory(InitNotes(db)))))
  }

  /** The value `self` has before startup, if any. */
  function SelfBefore(db: Tx): Option<string>
  {
    if Internal in db then Get(db[Internal], SelfKey) else None
  }

  /** A bucket as startup leaves it: the one there, or a fresh one. */
  function Ensured(db: Tx, name: string): Bucket
  {
    if name in db then db[name] else Empty
  }

  /** `internal` as startup leaves it. */
  function InternalAfter(db: Tx): Bucket
  {
    var b := Ensured(db, Internal);
    if Get(b, SelfKey).Some? then b else Put(b, SelfKey, Notes)
  }

  /** Each startup transaction, as an update of the root. */
  lemma StartupSteps(db: Tx)
    ensures InitNotes(db) == db[Notes := Ensured(db, Notes)]
    ensures InitHistory(db) == db[History := Ensured(db, History)]
    ensures InitInternal(db) == db[Internal := InternalAfter(db)]
    ensures InitTodo(db) == db[Todo := Ensured(db, Todo)]
    ensures InitTodoHistory(db) == db[TodoHistory := Ensured(db, TodoHistory)]
  {
  }

  /** The whole sequence as one update of the root. */
  lemma StartedIsUpdate(db: Tx)
    ensures Started(db) == db[Notes := Ensured(db, Notes)][History := Ensured(db, History)]
      [Internal := InternalAfter(db)][Todo := Ensured(db, Todo)][TodoHistory := Ensured(db, TodoHistory)]
  {
    FixedNamesDistinct();
    var s1 := InitNotes(db);
    StartupSteps(db);
    var s2 := InitHistory(s1);
    StartupSteps(s1);
    var s3 := InitInternal(s2);
    StartupSteps(s2);
    assert InternalAfter(s2) == InternalAfter(db);
    var s4 := InitTodo(s3);
    StartupSteps(s3);
    StartupSteps(s4);
  }

  /**
   * After startup the five fixed buckets exist and no other bucket is
   * added; every bucket that existed, other than `internal`, keeps its
   * contents, and the buckets it adds are empty.
   */
  lemma StartupCreatesFixedBuckets(db: Tx)
    ensures Started(db).Keys == db.Keys + {Notes, History, Internal, Todo, TodoHistory}
    ensures forall n :: n in Started(db) && n != Internal ==> Started(db)[n] == Ensured(db, n)
  {
    StartupKeys(db);
    StartupContents(db);
  }

  lemma StartupKeys(db: Tx)
    ensures Started(db).Keys == db.Keys + {Notes, History, Internal, Todo, TodoHistory}
  {
    StartedIsUpdate(db);
  }

  lemma StartupContents(db: Tx)
    ensures forall n :: n in Started(db) && n != Internal ==> Started(db)[n] == Ensured(db, n)
  {
    FixedNamesDistinct();
    StartedIsUpdate(db);
  }

  /**
   * Of `internal`, startup changes at most `self`: an unset `self` becomes
   * "notes", a set one is kept, and every other key and the counter stay.
   */
  lemma StartupSetsSelfOnlyIfUnset(db: Tx)
    ensures var after := Started(db);
      && Internal in after
      && Get(after[Internal], SelfKey) == (if SelfBefore(db).Some? then SelfBefore(db) else Some(Notes))
      && (forall k :: k != SelfKey ==> Get(after[Internal], k) == (if Internal in db then Get(db[Internal], k) else None))
      && after[Internal].sequence == (if Internal in db then db[Internal].sequence else 0)
  {
    StartedIsUpdate(db);
    assert Started(db)[Internal] == InternalAfter(db);
  }

  /** An existing `self` is kept; an unset one becomes "notes", which then is the active space. */
  lemma StartupSelfDefault(db: Tx)
    ensures SelfBefore(db).Some? ==> ReadSelf(Started(db)) == Ok(SelfBefore(db).value)
    ensures SelfBefore(db).None? ==> ActiveSpace(Started(db), Notes)
  {
    StartupCreatesFixedBuckets(db);
    StartupSetsSelfOnlyIfUnset(db);
  }

  /** Running the startup sequence twice gives the same store as running it once. */
  lemma {:induction false} StartupIdempotent(db: Tx)
    ensures Started(Started(db)) == Started(db)
  {
    var once := Started(db);
    StartupCreatesFixedBuckets(db);
    StartupCreatesFixedBuckets(once);
    StartupSetsSelfOnlyIfUnset(db);
    StartupSetsSelfOnlyIfUnset(once);
    var twice := Started(once);
    assert SelfBefore(once).Some?;
    assert Get(twice[Internal], SelfKey) == Get(once[Internal], SelfKey);
    assert twice[Internal].items == once[Internal].items by {
      forall k ensures Get(twice[Internal], k) == Get(once[Internal], k) {
      }
    }
    assert twice[Internal] == once[Internal];
  }

  /**
   * The spaces `space ls` shows after startup include `notes`, `todo` and
   * `todo_history` (none of them reserved), and never `internal` or
   * `history`.
   */
  lemma StartupListedSpaces(db: Tx)
    ensures forall n :: n in {Notes, Todo, TodoHistory} ==> n in Started(db) && !IsReserved(n)
    ensures IsReserved(Internal) && IsReserved(History)
  {
    StartupCreatesFixedBuckets(db);
  }

  /**
   * After startup, any earlier `self` that still names a space stays the
   * active space, so the note commands keep working on it.
   */
  lemma StartupKeepsActiveSpace(db: Tx, space: string)
    requires ActiveSpace(db, space)
    ensures ActiveSpace(Started(db), space)
  {
    StartupCreatesFixedBuckets(db);
    StartupSetsSelfOnlyIfUnset(db);
  }

  /**
   * The todo invariant does not survive deleting the `todo` space: the
   * `space rm` prompt allows it, the next startup recreates `todo` with its
   * counter at 0, and `todo_history` keeps its entries, so the next key
   * `todo add` issues can already be in `todo_history`, where a later
   * `todo check` of it overwrites the earlier entry.
   */
  lemma RmTodoBreaksTodoKeys(db: Tx)
    requires ReadSelf(db).Ok? && ReadSelf(db).value != Todo
    requires Todo in db && TodoHistory in db && Itob(1) in db[TodoHistory].items
    ensures Committed(db, DeletePrompt(db, Todo)) == db - {Todo}
    ensures var after := Started(db - {Todo});
      && after[Todo] == Empty
      && Itob(NextSequence(after[Todo]).0) in after[TodoHistory].items
      && !TodoKeys(after)
  {
    FixedNamesDistinct();
    var gone := db - {Todo};
    StartupCreatesFixedBuckets(gone);
    ItobRoundTrip(1);
  }

  /** Startup keeps the todo invariant: it only creates missing buckets. */
  lemma StartupKeepsTodoKeys(db: Tx)
    requires TodoKeys(db)
    ensures TodoKeys(Started(db))
  {
    FixedNamesDistinct();
    StartupCreatesFixedBuckets(db);
  }

  /** `note add` with `todo` active is `todo add`: both use the counter of `todo`. */
  lemma NoteAddOnTodoIsTodoAdd(db: Tx, text: string)
    requires ActiveSpace(db, Todo)
    ensures NoteCommands.AddTx(db, text) == TodoCommands.AddTx(db, text)
  {
  }

  /**
   * `todo_history` is a selectable space whose counter `todo check` never
   * advances, so its keys are not issued by it. `note add` with it active
   * stores under that counter's next number: an earlier checked todo there
   * is replaced, and a key still in `todo` breaks the todo invariant.
   */
  lemma NoteAddIntoTodoHistory(db: Tx, text: string)
    requires ActiveSpace(db, TodoHistory)
    ensures var id := Itob(NextSequence(db[TodoHistory]).0);
      var after := NoteCommands.AddTx(db, text);
      && after.Ok?
      && Get(after.value[TodoHistory], id) == Some(text)
      && (id in db[TodoHistory].items && db[TodoHistory].items[id] != text ==>
            Get(after.value[TodoHistory], id) != Get(db[TodoHistory], id))
      && (id in db[TodoHistory].items && db[TodoHistory].sequence < MaxUint64 ==> !Issued(db[TodoHistory]))
      && (TodoKeys(db) && id in db[Todo].items ==> !TodoKeys(after.value))
  {
    NoteCommands.AddStoresUnderNextSequence(db, text);
    var b := db[TodoHistory];
    var id := Itob(NextSequence(b).0);
    var after := NoteCommands.AddTx(db, text).value;
    if id in b.items && b.sequence < MaxUint64 && Issued(b) {
      NextKeyFresh(b, text);
    }
    if TodoKeys(db) && id in db[Todo].items {
      FixedNamesDistinct();
      assert after[Todo] == db[Todo];
      assert id in after[TodoHistory].items;
    }
  }

  method Run(db: Db)
    modifies db
    ensures db.data == Started(old(db.data))
  {
    var _ := db.Update(CreateBucketIfNotExists(db.data, Notes));
    var _ := db.Update(CreateBucketIfNotExists(db.data, History));
    var _ := db.Update(InternalTx(db.data));
    var _ := db.Update(CreateBucket(db.data, Todo));
    var _ := db.Update(CreateBucket(db.data, TodoHistory));
  }
}
