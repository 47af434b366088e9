/**
 * The todo commands (cmd/todo.go): a single list in the fixed bucket `todo`,
 * with checked items kept in `todo_history` under their original key.
 */
module TodoCommands {
  import opened Wrappers
  import opened Keys
  import opened Strconv
  import opened Bolt
  import opened Layout

  // ---------------------------------------------------------------------
  // Startup

  /**
   * The two startup transactions (cmd/todo.go:25-45 and 47-67): `CreateBucket`
   * fails on a bucket that exists, and the code then returns before Commit.
   */
  function InitTodo(db: Tx): Tx
  {
    Committed(db, CreateBucket(db, Todo))
  }

  function InitTodoHistory(db: Tx): Tx
  {
    Committed(db, CreateBucket(db, TodoHistory))
  }

  /**
   * Each creates its bucket empty when it is absent, and leaves the store
   * exactly as it was when the bucket exists.
   */
  lemma InitCreatesOnlyWhenAbsent(db: Tx)
    ensures Todo in InitTodo(db) && InitTodo(db)[Todo] == (if Todo in db then db[Todo] else Empty)
    ensures Todo in db ==> InitTodo(db) == db
    ensures Todo !in db ==> InitTodo(db) == db[Todo := Empty]
    ensures TodoHistory in InitTodoHistory(db)
    ensures TodoHistory in db ==> InitTodoHistory(db) == db
    ensures TodoHistory !in db ==> InitTodoHistory(db) == db[TodoHistory := Empty]
  {
  }

  // ---------------------------------------------------------------------
  // add

  /** The callback of `todo add` (cmd/todo.go:83-87 and 101-105). */
  function AddTx(db: Tx, text: string): Outcome
  {
    PutNext(db, Todo, text)
  }

  /**
   * `todo add` succeeds exactly when `todo` exists, stores any text (an
   * empty one too) under its next sequence number, advances the counter,
   * and changes nothing else.
   */
  lemma AddStoresUnderNextSequence(db: Tx, text: string)
    ensures AddTx(db, text).Ok? <==> Todo in db
    ensures AddTx(db, text).Ok? ==>
      var b, after := db[Todo], AddTx(db, text).value;
      var id := NextSequence(b).0;
      && after.Keys == db.Keys
      && after[Todo].sequence == id
      && Get(after[Todo], Itob(id)) == Some(text)
      && (forall k :: k != Itob(id) ==> Get(after[Todo], k) == Get(b, k))
      && (forall n :: n in db && n != Todo ==> after[n] == db[n])
  {
  }

  /**
   * The text `todo add` stores, given the arguments and the prompt's reply
   * (None when the prompt is aborted), as written (`guard` 1) and as
   * intended (`guard` 0): it comes from the arguments only when there are
   * more than `guard` of them.
   */
  function AddText(args: seq<string>, reply: Option<string>, guard: nat): Option<string>
  {
    if |args| > guard then Some(args[0]) else reply
  }

  /**
   * The `todo add` command as written: only with two or more arguments is
   * the first stored directly; with one or none the prompt's reply is
   * stored, without any check on it.
   */
  method Add(db: Db, args: seq<string>, reply: Option<string>) returns (err: Option<Error>)
    modifies db
    ensures AddText(args, reply, 1).Some? ==> db.data == Committed(old(db.data), AddTx(old(db.data), AddText(args, reply, 1).value))
    ensures AddText(args, reply, 1).None? ==> db.data == old(db.data)
  {
    var text: string;
    if |args| > 1 {
      text := args[0];
    } else if reply.None? {
      return Some(PromptAborted);
    } else {
      text := reply.value;
    }
    err := db.Update(AddTx(db.data, text));
  }

  /** The command as evidently intended: any argument is the text, as in `note add`. */
  method AddIntended(db: Db, args: seq<string>, reply: Option<string>) returns (err: Option<Error>)
    modifies db
    ensures AddText(args, reply, 0).Some? ==> db.data == Committed(old(db.data), AddTx(old(db.data), AddText(args, reply, 0).value))
    ensures AddText(args, reply, 0).None? ==> db.data == old(db.data)
  {
    var text: string;
    if |args| > 0 {
      text := args[0];
    } else if reply.None? {
      return Some(PromptAborted);
    } else {
      text := reply.value;
    }
    err := db.Update(AddTx(db.data, text));
  }

  /**
   * Finding: `todo add milk` with `todo` present prompts instead of storing
   * "milk"; for every reply other than "milk", "milk" is not what lands under
   * the next sequence number, while the intended guard stores it there.
   */
  lemma AddOneArgumentPrompts(db: Tx, reply: Option<string>)
    requires Todo in db && reply != Some("milk")
    ensures AddText(["milk"], reply, 1) != Some("milk")
    ensures AddText(["milk"], reply, 1).Some? ==>
      Get(Committed(db, AddTx(db, AddText(["milk"], reply, 1).value))[Todo], Itob(NextSequence(db[Todo]).0)) != Some("milk")
    ensures AddText(["milk"], reply, 0) == Some("milk")
    ensures Get(Committed(db, AddTx(db, "milk"))[Todo], Itob(NextSequence(db[Todo]).0)) == Some("milk")
  {
    AddStoresUnderNextSequence(db, "milk");
    if reply.Some? {
      AddStoresUnderNextSequence(db, reply.value);
    }
  }

  // ---------------------------------------------------------------------
  // edit

  /**
   * The read-only transaction of `todo edit` (cmd/todo.go:133-147): the
   * argument must parse and name a key present in `todo`.
   */
  function EditLookup(db: Tx, args: seq<string>): Result<Key, Error>
  {
    if args == [] then Err(MissingArgument)
    else match Atoi(args[0])
      case None => Err(ParseError)
      case Some(n) =>
        if Todo !in db then Err(NilBucket)
        else if KeyOf(n) !in db[Todo].items then Err(KeyNotFound)
        else Ok(KeyOf(n))
  }

  /** The write transaction of `todo edit` (cmd/todo.go:161-167). */
  function EditWrite(db: Tx, args: seq<string>, text: string): Outcome
  {
    if args == [] then Err(MissingArgument)
    else match Atoi(args[0])
      case None => Err(ParseError)
      case Some(n) =>
        if Todo !in db then Err(NilBucket)
        else Ok(db[Todo := Put(db[Todo], KeyOf(n), text)])
  }

  /**
   * `todo edit` fails with KeyNotFound exactly when the argument parses but
   * names no item of `todo`; after a successful lookup the write succeeds
   * and overwrites only that key of `todo`.
   */
  lemma EditOverwritesOnlyThatKey(db: Tx, args: seq<string>, text: string)
    ensures EditLookup(db, args) == Err(KeyNotFound) <==>
      args != [] && Atoi(args[0]).Some? && Todo in db && KeyOf(Atoi(args[0]).value) !in db[Todo].items
    ensures EditLookup(db, args).Ok? ==>
      var k := EditLookup(db, args).value;
      && EditWrite(db, args, text).Ok?
      && var after := EditWrite(db, args, text).value;
      && k in db[Todo].items
      && after.Keys == db.Keys
      && after[Todo].sequence == db[Todo].sequence
      && Get(after[Todo], k) == Some(text)
      && (forall k' :: k' != k ==> Get(after[Todo], k') == Get(db[Todo], k'))
      && (forall n :: n in db && n != Todo ==> after[n] == db[n])
  {
  }

  /** The `todo edit` command: look up, prompt for the new text (unchecked), write. */
  method Edit(db: Db, args: seq<string>, reply: Option<string>) returns (err: Option<Error>)
    modifies db
    ensures EditLookup(old(db.data), args).Err? || reply.None? ==> db.data == old(db.data)
    ensures EditLookup(old(db.data), args).Ok? && reply.Some? ==>
      db.data == Committed(old(db.data), EditWrite(old(db.data), args, reply.value))
  {
    var found := EditLookup(db.data, args);
    if found.Err? {
      return Some(found.error);
    }
    if reply.None? {
      return Some(PromptAborted);
    }
    err := db.Update(EditWrite(db.data, args, reply.value));
  }

  // ---------------------------------------------------------------------
  // check

  /**
   * What the first transaction of `todo check` finds (cmd/todo.go:181-191):
   * the key the argument names and its text, which must be present.
   */
  function CheckLookup(db: Tx, args: seq<string>): Result<(Key, string), Error>
  {
    if args == [] then Err(MissingArgument)
    else match Atoi(args[0])
      case None => Err(ParseError)
      case Some(n) =>
        if Todo !in db then Err(NilBucket)
        else match Get(db[Todo], KeyOf(n))
          case None => Err(KeyNotFound)
          case Some(v) => Ok((KeyOf(n), v))
  }

  /** The first transaction of `todo check` (cmd/todo.go:180-194): delete the item from `todo`. */
  function CheckTake(db: Tx, args: seq<string>): Outcome
  {
    match CheckLookup(db, args)
    case Err(e) => Err(e)
    case Ok((k, _)) => Ok(db[Todo := Delete(db[Todo], k)])
  }

  /**
   * The second transaction (cmd/todo.go:199-203): put the text under the
   * same key in `todo_history`, overwriting what is there; a missing bucket
   * panics, which rolls this transaction back.
   */
  function CheckArchive(db: Tx, k: Key, v: string): Outcome
  {
    if TodoHistory !in db then Err(NilBucket)
    else Ok(db[TodoHistory := Put(db[TodoHistory], k, v)])
  }

  /** The store after `todo check`: two transactions, each committed on its own. */
  function CheckResult(db: Tx, args: seq<string>): Tx
  {
    match CheckLookup(db, args)
    case Err(_) => db
    case Ok((k, v)) =>
      var taken := Committed(db, CheckTake(db, args));
      Committed(taken, CheckArchive(taken, k, v))
  }

  method Check(db: Db, args: seq<string>) returns (err: Option<Error>)
    modifies db
    ensures db.data == CheckResult(old(db.data), args)
  {
    var found := CheckLookup(db.data, args);
    err := db.Update(CheckTake(db.data, args));
    if err.Some? {
      return;
    }
    var _ := db.Update(CheckArchive(db.data, found.value.0, found.value.1));
  }

  /**
   * A failed lookup (a missing argument, an unparsable one, no `todo`
   * bucket, or an absent key) changes neither `todo` nor `todo_history`.
   * A present key leaves `todo`, and its text lands under the same key in
   * `todo_history` (replacing any entry there) when that bucket exists;
   * nothing else changes. Without `todo_history` the item is dropped.
   */
  lemma CheckMovesUnderSameKey(db: Tx, args: seq<string>)
    ensures CheckLookup(db, args).Err? ==> CheckResult(db, args) == db
    ensures CheckLookup(db, args) == Err(KeyNotFound) <==>
      args != [] && Atoi(args[0]).Some? && Todo in db && KeyOf(Atoi(args[0]).value) !in db[Todo].items
    ensures CheckLookup(db, args).Ok? ==>
      var (k, v) := CheckLookup(db, args).value;
      var after := CheckResult(db, args);
      && Todo in db && k in db[Todo].items && v == db[Todo].items[k]
      && after.Keys == db.Keys
      && after[Todo] == Delete(db[Todo], k)
      && (TodoHistory in db ==> after[TodoHistory] == Put(db[TodoHistory], k, v))
      && (forall n :: n in db && n != Todo && n != TodoHistory ==> after[n] == db[n])
  {
  }

  /**
   * The invariant the todo commands keep: every key of `todo` was issued by
   * its counter, and `todo_history` only holds keys that counter issued and
   * that are no longer in `todo`.
   */
  ghost predicate TodoKeys(db: Tx)
  {
    && Todo in db && TodoHistory in db
    && Issued(db[Todo])
    && forall k :: k in db[TodoHistory].items ==>
         |k| == 8 && Uint64(k) <= db[Todo].sequence && k !in db[Todo].items
  }

  lemma FreshStoreKeepsTodoKeys(db: Tx)
    requires Todo !in db && TodoHistory !in db
    ensures TodoKeys(InitTodoHistory(InitTodo(db)))
  {
  }

  /** `todo add` keeps the invariant while the counter is below the uint64 maximum. */
  lemma {:induction false} AddKeepsTodoKeys(db: Tx, text: string)
    requires TodoKeys(db) && db[Todo].sequence < MaxUint64
    ensures AddTx(db, text).Ok? && TodoKeys(AddTx(db, text).value)
  {
    var b := db[Todo];
    var id := b.sequence + 1;
    NextKeyFresh(b, text);
    var after := AddTx(db, text).value;
    assert after[TodoHistory] == db[TodoHistory];
    forall k | k in after[TodoHistory].items
      ensures k !in after[Todo].items
    {
      if k == Itob(id) {
        ItobRoundTrip(id);
      }
    }
  }

  lemma EditKeepsTodoKeys(db: Tx, args: seq<string>, text: string)
    requires TodoKeys(db) && EditLookup(db, args).Ok?
    ensures EditWrite(db, args, text).Ok? && TodoKeys(EditWrite(db, args, text).value)
  {
  }

  lemma CheckKeepsTodoKeys(db: Tx, args: seq<string>)
    requires TodoKeys(db)
    ensures TodoKeys(CheckResult(db, args))
  {
  }

  /**
   * While the invariant holds, the key `todo check` moves is not yet in
   * `todo_history`: checking never overwrites an earlier checked item. The
   * todo commands and startup keep the invariant (`Startup.StartupKeepsTodoKeys`);
   * deleting the `todo` space through `space rm` breaks it
   * (`Startup.RmTodoBreaksTodoKeys`), and so can `note add` with
   * `todo_history` active (`Startup.NoteAddIntoTodoHistory`).
   */
  lemma CheckNeverOverwritesHistory(db: Tx, args: seq<string>)
    requires TodoKeys(db) && CheckLookup(db, args).Ok?
    ensures CheckLookup(db, args).value.0 !in db[TodoHistory].items
    ensures forall k :: k in db[TodoHistory].items ==>
      Get(CheckResult(db, args)[TodoHistory], k) == Get(db[TodoHistory], k)
  {
  }

  // ---------------------------------------------------------------------
  // rm

  /** The callback of `todo rm` (cmd/todo.go:229-235): deleting an absent key is no error. */
  function RmTx(db: Tx, args: seq<string>): Outcome
  {
    if args == [] then Err(MissingArgument)
    else match Atoi(args[0])
      case None => Err(ParseError)
      case Some(n) =>
        if Todo !in db then Err(NilBucket)
        else Ok(db[Todo := Delete(db[Todo], KeyOf(n))])
  }

  /**
   * `todo rm` succeeds exactly when the argument parses and `todo` exists,
   * whether or not the key is present; afterwards the key is absent and
   * every other key and bucket is as it was.
   */
  lemma RmDeletesKey(db: Tx, args: seq<string>)
    ensures RmTx(db, args).Ok? <==> args != [] && Atoi(args[0]).Some? && Todo in db
    ensures RmTx(db, args).Ok? ==>
      var k, after := KeyOf(Atoi(args[0]).value), RmTx(db, args).value;
      && after.Keys == db.Keys
      && Get(after[Todo], k) == None
      && after[Todo].sequence == db[Todo].sequence
      && (forall k' :: k' != k ==> Get(after[Todo], k') == Get(db[Todo], k'))
      && (forall n :: n in db && n != Todo ==> after[n] == db[n])
      && (k !in db[Todo].items ==> after == db)
    ensures RmTx(db, args).Ok? && TodoKeys(db) ==> TodoKeys(RmTx(db, args).value)
  {
    if RmTx(db, args).Ok? {
      var k := KeyOf(Atoi(args[0]).value);
      if k !in db[Todo].items {
        assert db[Todo].items - {k} == db[Todo].items;
        assert db[Todo := Delete(db[Todo], k)][Todo] == db[Todo];
      }
    }
  }

  method Rm(db: Db, args: seq<string>) returns (err: Option<Error>)
    modifies db
    ensures db.data == Committed(old(db.data), RmTx(old(db.data), args))
  {
    err := db.Update(RmTx(db.data, args));
  }
}
