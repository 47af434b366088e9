/**
 * Space management (cmd/space.go): a space is any root bucket; `internal`
 * and `history` are reserved, and `internal.self` names the active one.
 */
module SpaceCommands {
  import opened Wrappers
  import opened Bolt
  import opened Layout
  import opened NoteCommands

  /** The names no command may add, select or rename onto. */
  predicate IsReserved(name: string)
  {
    name == Internal || name == History
  }

  /** The validator of the interactive name prompts (cmd/space.go:69-77). */
  predicate SpaceNameValid(name: string)
  {
    name != "" && !IsReserved(name)
  }

  // ---------------------------------------------------------------------
  // add

  /** `space add` with arguments (cmd/space.go:39-63): create-if-not-exists after the reserved check. */
  function AddArgs(db: Tx, name: string): Outcome
  {
    if IsReserved(name) then Err(Reserved) else CreateBucketIfNotExists(db, name)
  }

  /** `space add` through the prompt (cmd/space.go:85-103): plain create, which refuses an existing name. */
  function AddPrompt(db: Tx, name: string): Outcome
  {
    CreateBucket(db, name)
  }

  /**
   * The argument path rejects a reserved name and the empty name with no
   * change; otherwise the space exists afterwards, an existing space is left
   * as it was, and a new one is empty.
   */
  lemma AddArgsCreatesIfMissing(db: Tx, name: string)
    ensures AddArgs(db, name).Ok? <==> name != "" && !IsReserved(name)
    ensures AddArgs(db, name).Err? ==> Committed(db, AddArgs(db, name)) == db
    ensures AddArgs(db, name).Ok? ==>
      AddArgs(db, name).value == if name in db then db else db[name := Empty]
  {
  }

  /**
   * A name the prompt accepts is created empty unless a space of that name
   * exists, in which case the transaction fails and nothing changes.
   */
  lemma AddPromptRefusesExisting(db: Tx, name: string)
    requires SpaceNameValid(name)
    ensures AddPrompt(db, name).Ok? <==> name !in db
    ensures AddPrompt(db, name).Ok? ==> AddPrompt(db, name).value == db[name := Empty]
    ensures AddPrompt(db, name).Err? ==> Committed(db, AddPrompt(db, name)) == db
  {
  }

  /**
   * The `space add` command. With two or more arguments the first is
   * created (a reserved name or an error ends the command); then, whether
   * or not that happened, the prompt runs, and a reply its validator
   * accepts is created too.
   */
  method Add(db: Db, args: seq<string>, reply: Option<string>) returns (err: Option<Error>)
    modifies db
    ensures |args| > 1 && AddArgs(old(db.data), args[0]).Err? ==> db.data == old(db.data)
    ensures |args| <= 1 || AddArgs(old(db.data), args[0]).Ok? ==>
      var mid := if |args| > 1 then AddArgs(old(db.data), args[0]).value else old(db.data);
      db.data == if reply.Some? && SpaceNameValid(reply.value) then Committed(mid, AddPrompt(mid, reply.value)) else mid
  {
    if |args| > 1 {
      var first := AddArgs(db.data, args[0]);
      if first.Err? {
        return Some(first.error);
      }
      var _ := db.Update(first);
    }
    if reply.None? {
      return Some(PromptAborted);
    }
    if !SpaceNameValid(reply.value) {
      return Some(EmptyInput);
    }
    err := db.Update(AddPrompt(db.data, reply.value));
  }

  // ---------------------------------------------------------------------
  // list

  /** Lexicographic order on names, the order in which the store keeps root buckets. */
  predicate NameLess(a: string, b: string)
  {
    if a == [] then b != []
    else if b == [] then false
    else a[0] < b[0] || (a[0] == b[0] && NameLess(a[1..], b[1..]))
  }

  predicate Ascending(names: seq<string>)
  {
    forall i, j :: 0 <= i < j < |names| ==> NameLess(names[i], names[j])
  }

  /** What `tx.ForEach` visits: every root bucket once, in ascending name order. */
  ghost predicate RootOrder(db: Tx, names: seq<string>)
  {
    Ascending(names) && (forall n :: n in names <==> n in db)
  }

  /**
   * `space ls` (cmd/space.go:219-232): the names the walk visits, without
   * `internal` and `history`, in the store's order. The transaction writes
   * nothing, so the store is unchanged.
   */
  method List(db: Tx, names: seq<string>) returns (spaces: seq<string>)
    requires RootOrder(db, names)
    ensures forall n :: n in spaces <==> n in db && !IsReserved(n)
    ensures Ascending(spaces)
  {
    spaces := [];
    var i := 0;
    while i < |names|
      invariant 0 <= i <= |names|
      invariant forall n :: n in spaces <==> n in names[..i] && !IsReserved(n)
      invariant Ascending(spaces)
    {
      var name := names[i];
      if !IsReserved(name) {
        forall k | 0 <= k < |spaces|
          ensures NameLess(spaces[k], name)
        {
          assert spaces[k] in names[..i];
          var j :| 0 <= j < i && names[j] == spaces[k];
        }
        spaces := spaces + [name];
      }
      assert names[..i + 1] == names[..i] + [name];
      i := i + 1;
    }
    assert names[..i] == names;
  }

  // ---------------------------------------------------------------------
  // select

  /**
   * `space select` with an argument (cmd/space.go:242-267): the reserved
   * check, the existence check, then a transaction that stores the name
   * under `internal.self`.
   */
  function SelectTx(db: Tx, name: string): Outcome
  {
    if IsReserved(name) then Err(Reserved)
    else if name !in db then Err(SpaceNotFound)
    else if Internal !in db then Err(NilBucket)
    else Ok(db[Internal := Put(db[Internal], SelfKey, name)])
  }

  /**
   * Selecting a reserved or missing space changes nothing; otherwise the
   * name becomes the active space, and only `internal.self` changes.
   */
  lemma SelectMakesActive(db: Tx, name: string)
    ensures SelectTx(db, name).Ok? <==> !IsReserved(name) && name in db && Internal in db
    ensures SelectTx(db, name).Err? ==> Committed(db, SelectTx(db, name)) == db
    ensures SelectTx(db, name).Ok? ==>
      var after := SelectTx(db, name).value;
      && ActiveSpace(after, name)
      && after.Keys == db.Keys
      && (forall k :: k != SelfKey ==> Get(after[Internal], k) == Get(db[Internal], k))
      && (forall n :: n in db && n != Internal ==> after[n] == db[n])
  {
  }

  /**
   * The prompt path of `space select` (cmd/space.go:271-301): whatever name
   * the select leaves is stored under `internal.self`; only a missing
   * `internal` bucket stops it.
   */
  function SelectPrompt(db: Tx, name: string): Outcome
  {
    if Internal !in db then Err(NilBucket)
    else Ok(db[Internal := Put(db[Internal], SelfKey, name)])
  }

  /**
   * The prompt offers every space but `internal` and `history`; for any of
   * them it does what the argument path does, so the choice becomes the
   * active space.
   */
  lemma SelectPromptAgrees(db: Tx, name: string)
    requires name in db && !IsReserved(name)
    ensures SelectPrompt(db, name) == SelectTx(db, name)
    ensures Internal in db ==> ActiveSpace(SelectPrompt(db, name).value, name)
  {
  }

  /** The `space select` command: the first argument, or else the prompt's choice. */
  method Select(db: Db, args: seq<string>, choice: string) returns (err: Option<Error>)
    modifies db
    ensures |args| > 0 ==> db.data == Committed(old(db.data), SelectTx(old(db.data), args[0]))
    ensures |args| == 0 ==> db.data == Committed(old(db.data), SelectPrompt(old(db.data), choice))
  {
    if |args| > 0 {
      err := db.Update(SelectTx(db.data, args[0]));
    } else {
      err := db.Update(SelectPrompt(db.data, choice));
    }
  }

  // ---------------------------------------------------------------------
  // rm

  /**
   * The guard both paths of `space rm` share (cmd/space.go:312-315 and
   * 359-362): not `internal`, not the active space, not `history`. The
   * comparison with `internal` comes first, so `self()` is only read after.
   */
  function DeleteGuard(db: Tx, name: string): Option<Error>
  {
    if name == Internal then Some(Reserved)
    else match ReadSelf(db)
      case Err(e) => Some(e)
      case Ok(active) =>
        if name == active then Some(SelectedSpace)
        else if name == History then Some(Reserved)
        else None
  }

  /**
   * `space rm` with arguments as written (cmd/space.go:310-332): after the
   * guard and the existence check it deletes the bucket but returns before
   * Commit, so the deferred Rollback discards the deletion.
   */
  function DeleteArgs(db: Tx, name: string): Outcome
  {
    match DeleteGuard(db, name)
    case Some(e) => Err(e)
    case None =>
      if name !in db then Err(SpaceNotFound)
      else match DeleteBucket(db, name)
        case Err(e) => Err(e)
        case Ok(_) => Err(Uncommitted)
  }

  /** Finding: the argument path of `space rm` never changes the store. */
  lemma DeleteArgsNeverCommits(db: Tx, name: string)
    ensures DeleteArgs(db, name).Err?
    ensures Committed(db, DeleteArgs(db, name)) == db
    ensures DeleteGuard(db, name).None? && name in db ==> DeleteArgs(db, name) == Err(Uncommitted)
  {
  }

  /** The argument path as evidently intended: commit the deletion the guards allow. */
  function DeleteIntended(db: Tx, name: string): Outcome
  {
    match DeleteGuard(db, name)
    case Some(e) => Err(e)
    case None =>
      if name !in db then Err(SpaceNotFound)
      else DeleteBucket(db, name)
  }

  /**
   * The interactive path (cmd/space.go:357-365): the guard, then
   * `DeleteBucket` with its error ignored, then Commit.
   */
  function DeletePrompt(db: Tx, name: string): Outcome
  {
    match DeleteGuard(db, name)
    case Some(e) => Err(e)
    case None => Ok(if name in db then db - {name} else db)
  }

  /**
   * A deletion the guard allows removes exactly that space; `internal`,
   * `history` and the active space are never removed, so the active space
   * still resolves afterwards. The interactive path agrees with the intended
   * argument path on every existing space.
   */
  lemma DeleteKeepsActiveSpace(db: Tx, name: string)
    ensures DeleteIntended(db, name).Ok? <==> DeleteGuard(db, name).None? && name in db
    ensures DeleteIntended(db, name).Ok? ==>
      var after := DeleteIntended(db, name).value;
      && name != Internal && name != History
      && after.Keys == db.Keys - {name}
      && (forall n :: n in after ==> after[n] == db[n])
      && (forall space :: ActiveSpace(db, space) ==> ActiveSpace(after, space))
    ensures name in db ==> DeletePrompt(db, name) == DeleteIntended(db, name)
  {
    if DeleteIntended(db, name).Ok? {
      var after := DeleteIntended(db, name).value;
      assert Internal in db ==> after[Internal] == db[Internal];
    }
  }

  /**
   * An existing space other than the active one: the argument path leaves
   * it in place, while the intended deletion removes it.
   */
  lemma DeleteArgsKeepsSpace()
    ensures
      var db: Tx := map[Internal := Bucket(0, map[SelfKey := Notes]), Notes := Empty, "work" := Empty];
      && Committed(db, DeleteArgs(db, "work")) == db && "work" in db
      && DeleteIntended(db, "work") == Ok(db - {"work"})
  {
    var db: Tx := map[Internal := Bucket(0, map[SelfKey := Notes]), Notes := Empty, "work" := Empty];
    assert ReadSelf(db) == Ok(Notes);
  }

  /**
   * The `space rm` command: with two or more arguments the argument path,
   * which never commits; otherwise the prompt's choice.
   */
  method Delete(db: Db, args: seq<string>, choice: string) returns (err: Option<Error>)
    modifies db
    ensures |args| > 1 ==> db.data == old(db.data)
    ensures |args| <= 1 ==> db.data == Committed(old(db.data), DeletePrompt(old(db.data), choice))
  {
    if |args| > 1 {
      DeleteArgsNeverCommits(db.data, args[0]);
      err := db.Update(DeleteArgs(db.data, args[0]));
    } else {
      err := db.Update(DeletePrompt(db.data, choice));
    }
  }

  // ---------------------------------------------------------------------
  // edit (rename)

  /**
   * The guards of `space edit` before `MoveBucket` (cmd/space.go:117-140): a
   * reserved destination is refused; a missing source exits the process
   * before Commit; the destination is created if absent. The result is the
   * transaction's state as `MoveBucket` receives it.
   */
  function RenamePrepare(db: Tx, src: string, dst: string): Outcome
  {
    if IsReserved(dst) then Err(Reserved)
    else if src !in db then Err(Exit)
    else match CreateBucketIfNotExists(db, dst)
      case Err(_) => Err(Exit)
      case Ok(t) => Ok(t)
  }

  /**
   * Rename reaches `MoveBucket` exactly when the destination is neither
   * reserved nor empty and the source exists; the source is still there and
   * the destination exists, created empty when it was absent. A reserved
   * source is not refused.
   */
  lemma RenameGuards(db: Tx, src: string, dst: string)
    ensures RenamePrepare(db, src, dst).Ok? <==> !IsReserved(dst) && dst != "" && src in db
    ensures RenamePrepare(db, src, dst).Err? ==> Committed(db, RenamePrepare(db, src, dst)) == db
    ensures RenamePrepare(db, src, dst).Ok? ==>
      var t := RenamePrepare(db, src, dst).value;
      && src in t && dst in t
      && t == (if dst in db then db else db[dst := Empty])
  {
  }

  /**
   * The transaction of the interactive rename up to `MoveBucket`
   * (cmd/space.go:188-200): it only creates the destination if absent, and
   * an error exits the process.
   */
  function RenameFormTx(db: Tx, dst: string): Outcome
  {
    match CreateBucketIfNotExists(db, dst)
    case Err(_) => Err(Exit)
    case Ok(t) => Ok(t)
  }

  /**
   * The interactive rename as written (cmd/space.go:154-205): both form
   * inputs store into the source name, so the destination keeps its initial
   * value, the empty name.
   */
  function RenameFormAsWritten(db: Tx, first: string, second: string): Outcome
  {
    var dst := "";
    RenameFormTx(db, dst)
  }

  /** Finding: whatever is typed into the form, the interactive rename exits without changing the store. */
  lemma RenameFormAlwaysExits(db: Tx, first: string, second: string)
    ensures RenameFormAsWritten(db, first, second) == Err(Exit)
    ensures Committed(db, RenameFormAsWritten(db, first, second)) == db
  {
  }

  /** The form as evidently intended: the second answer is the destination. */
  function RenameForm(db: Tx, first: string, second: string): Outcome
  {
    RenameFormTx(db, second)
  }

  /**
   * With a destination the validator accepts, the intended form reaches
   * `MoveBucket` with the destination in place, created empty when absent
   * and otherwise untouched.
   */
  lemma RenameFormReachesMove(db: Tx, first: string, second: string)
    requires SpaceNameValid(second)
    ensures RenameForm(db, first, second).Ok?
    ensures RenameForm(db, first, second).value == if second in db then db else db[second := Empty]
  {
  }
}
