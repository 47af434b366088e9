/**
 * The note commands (cmd/note.go) on the active space: `self`, `add`,
 * `edit`, `check`, `rm` and `history clean`. Each command's read-write
 * transaction is a callback from the committed root to an `Outcome`, which
 * `Db.Update` commits or discards.
 */
module NoteCommands {
  import opened Wrappers
  import opened Keys
  import opened Strconv
  import opened Bolt
  import opened Layout

  /**
   * self() (cmd/note.go:339-345): the name stored under `internal.self`. An
   * unset key reads as nil, which as a bucket name is "" and names no bucket;
   * a missing `internal` bucket makes the lookup panic.
   */
  function ReadSelf(db: Tx): Result<string, Error>
  {
    if Internal !in db then Err(NilBucket)
    else match Get(db[Internal], SelfKey)
      case Some(name) => Ok(name)
      case None => Ok("")
  }

  /** The active space, when `self` names a bucket that exists. */
  predicate ActiveSpace(db: Tx, space: string)
  {
    ReadSelf(db) == Ok(space) && space in db
  }

  /**
   * What `self()` returns: a panic without `internal`, the stored name when
   * `self` is set, and "" when it is not, which names no bucket, so there is
   * then no active space and every note command fails.
   */
  lemma ReadSelfCases(db: Tx)
    ensures Internal !in db ==> ReadSelf(db) == Err(NilBucket)
    ensures Internal in db && Get(db[Internal], SelfKey).Some? ==> ReadSelf(db) == Ok(Get(db[Internal], SelfKey).value)
    ensures Internal in db && Get(db[Internal], SelfKey).None? ==> ReadSelf(db) == Ok("")
    ensures (exists space :: ActiveSpace(db, space)) <==> Internal in db && Get(db[Internal], SelfKey).Some? && Get(db[Internal], SelfKey).value in db
  {
    if Internal in db && Get(db[Internal], SelfKey).Some? && Get(db[Internal], SelfKey).value in db {
      assert ActiveSpace(db, Get(db[Internal], SelfKey).value);
    }
  }

  // ---------------------------------------------------------------------
  // add

  /** The prompt validator of `add` and `edit`: a note cannot be empty. */
  predicate NoteTextValid(s: string)
  {
    s != ""
  }

  /** The callback of `add` (cmd/note.go:42-46 and 68-72). */
  function AddTx(db: Tx, text: string): Outcome
  {
    match ReadSelf(db)
    case Err(e) => Err(e)
    case Ok(space) => PutNext(db, space, text)
  }

  /**
   * `add` succeeds exactly when `self` names an existing bucket; it then
   * stores the text under the active bucket's next sequence number, advances
   * that counter, and changes no other key and no other bucket. While the
   * counter is below the uint64 maximum and every key was issued by it, the
   * new key is one no note had and sorts after all of them.
   */
  lemma AddStoresUnderNextSequence(db: Tx, text: string)
    ensures AddTx(db, text).Ok? <==> ReadSelf(db).Ok? && ReadSelf(db).value in db
    ensures AddTx(db, text).Ok? ==>
      var space := ReadSelf(db).value;
      var b, after := db[space], AddTx(db, text).value;
      var id := NextSequence(b).0;
      && after.Keys == db.Keys
      && after[space].sequence == id
      && Get(after[space], Itob(id)) == Some(text)
      && (forall k :: k != Itob(id) ==> Get(after[space], k) == Get(b, k))
      && (forall n :: n in db && n != space ==> after[n] == db[n])
      && (Issued(b) && b.sequence < MaxUint64 ==>
            id == b.sequence + 1 && Itob(id) !in b.items &&
            (forall k :: k in b.items ==> LexLess(k, Itob(id))) && Issued(after[space]))
  {
    if AddTx(db, text).Ok? {
      var space := ReadSelf(db).value;
      if Issued(db[space]) && db[space].sequence < MaxUint64 {
        NextKeyFresh(db[space], text);
      }
    }
  }

  /**
   * The `add` command: the first argument is stored as it is; with no
   * argument the prompt's reply is stored once the validator accepts it.
   */
  method Add(db: Db, args: seq<string>, reply: Option<string>) returns (err: Option<Error>)
    modifies db
    ensures |args| > 0 ==> db.data == Committed(old(db.data), AddTx(old(db.data), args[0]))
    ensures |args| == 0 && reply.Some? && NoteTextValid(reply.value) ==>
      db.data == Committed(old(db.data), AddTx(old(db.data), reply.value))
    ensures |args| == 0 && !(reply.Some? && NoteTextValid(reply.value)) ==> db.data == old(db.data) && err.Some?
  {
    var text: string;
    if |args| > 0 {
      text := args[0];
    } else if reply.None? {
      return Some(PromptAborted);
    } else if !NoteTextValid(reply.value) {
      return Some(EmptyInput);
    } else {
      text := reply.value;
    }
    err := db.Update(AddTx(db.data, text));
  }

  // ---------------------------------------------------------------------
  // edit

  /**
   * The read-only transaction of `edit` (cmd/note.go:103-113): the key the
   * first argument names must be present in the active space.
   */
  function EditLookup(db: Tx, args: seq<string>): Result<Key, Error>
  {
    match ReadSelf(db)
    case Err(e) => Err(e)
    case Ok(space) =>
      if args == [] then Err(MissingArgument)
      else match Atoi(args[0])
        case None => Err(ParseError)
        case Some(n) =>
          if space !in db then Err(NilBucket)
          else if KeyOf(n) !in db[space].items then Err(KeyNotFound)
          else Ok(KeyOf(n))
  }

  /**
   * The write transaction of `edit` as written (cmd/note.go:137-143): it
   * overwrites the key in the bucket named "notes", whatever the active
   * space is.
   */
  function EditWrite(db: Tx, args: seq<string>, text: string): Outcome
  {
    if args == [] then Err(MissingArgument)
    else match Atoi(args[0])
      case None => Err(ParseError)
      case Some(n) =>
        if Notes !in db then Err(NilBucket)
        else Ok(db[Notes := Put(db[Notes], KeyOf(n), text)])
  }

  /**
   * The write transaction `edit` evidently intends: overwrite the key it
   * looked up, in the active space.
   */
  function EditWriteActive(db: Tx, args: seq<string>, text: string): Outcome
  {
    match EditLookup(db, args)
    case Err(e) => Err(e)
    case Ok(k) => var space := ReadSelf(db).value; Ok(db[space := Put(db[space], k, text)])
  }

  /**
   * `edit` fails with KeyNotFound when the key is absent from the active
   * space; when it is present, the write as written succeeds exactly when
   * "notes" exists, and overwrites that key there and nothing else.
   */
  lemma EditOverwritesNotesBucket(db: Tx, args: seq<string>, text: string)
    requires args != [] && Atoi(args[0]).Some?
    requires ReadSelf(db).Ok? && ReadSelf(db).value in db
    ensures var k := KeyOf(Atoi(args[0]).value);
      && (k !in db[ReadSelf(db).value].items <==> EditLookup(db, args) == Err(KeyNotFound))
      && (EditWrite(db, args, text).Ok? <==> Notes in db)
      && (EditWrite(db, args, text).Ok? ==>
            var after := EditWrite(db, args, text).value;
            && after.Keys == db.Keys
            && after[Notes].sequence == db[Notes].sequence
            && Get(after[Notes], k) == Some(text)
            && (forall k' :: k' != k ==> Get(after[Notes], k') == Get(db[Notes], k'))
            && (forall n :: n in db && n != Notes ==> after[n] == db[n]))
  {
  }

  /**
   * Finding: with `work` active, editing its note 1 leaves `work` as it was
   * and plants the text under key 1 of "notes", a key beyond that bucket's
   * counter; the next `add` to "notes" then overwrites it.
   */
  lemma EditMissesActiveSpace()
    ensures
      var work := Bucket(1, map[Itob(1) := "draft"]);
      var db: Tx := map[Internal := Bucket(0, map[SelfKey := "work"]), "work" := work, Notes := Empty];
      && EditLookup(db, ["1"]) == Ok(Itob(1))
      && EditWrite(db, ["1"], "final").Ok?
      && var after := EditWrite(db, ["1"], "final").value;
      && after["work"] == work
      && Get(after[Notes], Itob(1)) == Some("final")
      && Issued(db[Notes]) && !Issued(after[Notes])
      && Get(PutNext(after, Notes, "next").value[Notes], Itob(1)) == Some("next")
  {
    var one := Itob(1);
    var work := Bucket(1, map[one := "draft"]);
    var db: Tx := map[Internal := Bucket(0, map[SelfKey := "work"]), "work" := work, Notes := Empty];
    assert ReadSelf(db) == Ok("work");
    assert Atoi("1") == Some(1) by {
      assert AllDigits("1") && DigitsValue("1") == 1 by {
        assert "1"[..0] == [];
      }
    }
    assert KeyOf(1) == one;
    assert EditLookup(db, ["1"]) == Ok(one);
    var after := db[Notes := Put(Empty, one, "final")];
    assert EditWrite(db, ["1"], "final") == Ok(after);
    ItobRoundTrip(1);
    assert one in after[Notes].items && Uint64(one) > after[Notes].sequence;
    assert NextSequence(after[Notes]).0 == 1;
  }

  /**
   * The intended edit succeeds exactly when the lookup does, overwrites only
   * the looked-up key of the active space, and keeps its keys issued.
   */
  lemma EditActiveOverwrites(db: Tx, args: seq<string>, text: string)
    ensures EditWriteActive(db, args, text).Ok? <==> EditLookup(db, args).Ok?
    ensures EditWriteActive(db, args, text).Ok? ==>
      var space, k := ReadSelf(db).value, EditLookup(db, args).value;
      var after := EditWriteActive(db, args, text).value;
      && k in db[space].items
      && after.Keys == db.Keys
      && after[space].sequence == db[space].sequence
      && Get(after[space], k) == Some(text)
      && (forall k' :: k' != k ==> Get(after[space], k') == Get(db[space], k'))
      && (forall n :: n in db && n != space ==> after[n] == db[n])
      && (Issued(db[space]) ==> Issued(after[space]))
  {
  }

  /**
   * The `edit` command: look the key up, ask for the new text (which the
   * validator requires to be non-empty), then write.
   */
  method Edit(db: Db, args: seq<string>, reply: Option<string>) returns (err: Option<Error>)
    modifies db
    ensures EditLookup(old(db.data), args).Err? ==> db.data == old(db.data) && err == Some(EditLookup(old(db.data), args).error)
    ensures EditLookup(old(db.data), args).Ok? && !(reply.Some? && NoteTextValid(reply.value)) ==> db.data == old(db.data)
    ensures EditLookup(old(db.data), args).Ok? && reply.Some? && NoteTextValid(reply.value) ==>
      db.data == Committed(old(db.data), EditWrite(old(db.data), args, reply.value))
  {
    var found := EditLookup(db.data, args);
    if found.Err? {
      return Some(found.error);
    }
    if reply.None? {
      return Some(PromptAborted);
    }
    if !NoteTextValid(reply.value) {
      return Some(EmptyInput);
    }
    err := db.Update(EditWrite(db.data, args, reply.value));
  }

  // ---------------------------------------------------------------------
  // check and rm with arguments

  /**
   * The argument loop shared by `check` and `rm` (cmd/note.go:158-172 and
   * 245-259), from `args` on: each argument must parse, and a key present in
   * the active space is deleted from it and its text collected in `vals`; an
   * absent key is skipped. `db` is the committed root `self()` reads, `tx`
   * the transaction's current root.
   */
  function Sweep(db: Tx, tx: Tx, args: seq<string>, vals: seq<string>): Result<(Tx, seq<string>), Error>
    decreases |args|
  {
    if args == [] then Ok((tx, vals))
    else match ReadSelf(db)
      case Err(e) => Err(e)
      case Ok(space) =>
        match Atoi(args[0])
        case None => Err(ParseError)
        case Some(n) =>
          if space !in tx then Err(NilBucket)
          else
            var b := tx[space];
            match Get(b, KeyOf(n))
            case None => Sweep(db, tx, args[1..], vals)
            case Some(v) => Sweep(db, tx[space := Delete(b, KeyOf(n))], args[1..], vals + [v])
  }

  /**
   * The history loop of `check` (cmd/note.go:176-179): each text under the
   * history bucket's next sequence number, in order.
   */
  function Archive(h: Bucket, vals: seq<string>): Bucket
    decreases |vals|
  {
    if vals == [] then h
    else
      var (id, h1) := NextSequence(h);
      Archive(Put(h1, Itob(id), vals[0]), vals[1..])
  }

  /**
   * The nested write transaction of `check` (cmd/note.go:174-182), taken
   * here as the continuation of the outer one: with texts to archive, the
   * history bucket must exist.
   */
  function AppendHistory(tx: Tx, vals: seq<string>): Outcome
  {
    if vals == [] then Ok(tx)
    else if History !in tx then Err(NilBucket)
    else Ok(tx[History := Archive(tx[History], vals)])
  }

  /** The callback of `check` with arguments (cmd/note.go:155-183). */
  function CheckTx(db: Tx, args: seq<string>): Outcome
  {
    match Sweep(db, db, args, [])
    case Err(e) => Err(e)
    case Ok((tx, vals)) => AppendHistory(tx, vals)
  }

  /** The callback of `rm` with arguments (cmd/note.go:242-260): the collected texts are dropped. */
  function RmTx(db: Tx, args: seq<string>): Outcome
  {
    match Sweep(db, db, args, [])
    case Err(e) => Err(e)
    case Ok((tx, _)) => Ok(tx)
  }

  /** The argument loop, run in place on the transaction's root. */
  method SweepArgs(db: Tx, args: seq<string>) returns (r: Result<(Tx, seq<string>), Error>)
    ensures r == Sweep(db, db, args, [])
  {
    var tx := db;
    var vals: seq<string> := [];
    var i := 0;
    while i < |args|
      invariant 0 <= i <= |args|
      invariant Sweep(db, tx, args[i..], vals) == Sweep(db, db, args, [])
    {
      assert args[i..][1..] == args[i + 1..];
      var space := ReadSelf(db);
      if space.Err? {
        return Err(space.error);
      }
      var key := Atoi(args[i]);
      if key.None? {
        return Err(ParseError);
      }
      if space.value !in tx {
        return Err(NilBucket);
      }
      var bucket := tx[space.value];
      var val := Get(bucket, KeyOf(key.value));
      if val.Some? {
        vals := vals + [val.value];
        tx := tx[space.value := Delete(bucket, KeyOf(key.value))];
      }
      i := i + 1;
    }
    return Ok((tx, vals));
  }

  /** The history loop, advancing the counter once per text. */
  method ArchiveAll(h: Bucket, vals: seq<string>) returns (r: Bucket)
    ensures r == Archive(h, vals)
  {
    r := h;
    var j := 0;
    while j < |vals|
      invariant 0 <= j <= |vals|
      invariant Archive(r, vals[j..]) == Archive(h, vals)
    {
      assert vals[j..][1..] == vals[j + 1..];
      var id := NextSequence(r).0;
      r := Put(NextSequence(r).1, Itob(id), vals[j]);
      j := j + 1;
    }
  }

  method CheckCallback(db: Tx, args: seq<string>) returns (r: Outcome)
    ensures r == CheckTx(db, args)
  {
    var swept := SweepArgs(db, args);
    if swept.Err? {
      return Err(swept.error);
    }
    var tx, vals := swept.value.0, swept.value.1;
    if vals == [] {
      return Ok(tx);
    }
    if History !in tx {
      return Err(NilBucket);
    }
    var h := ArchiveAll(tx[History], vals);
    return Ok(tx[History := h]);
  }

  /**
   * The `check` command: with arguments, their transaction, whose failure
   * ends the command; then, in every other case, the multi-select path
   * with the options the user ticks.
   */
  method Check(db: Db, args: seq<string>, picked: seq<string>) returns (err: Option<Error>)
    modifies db
    ensures db.data == CheckRun(old(db.data), args, picked)
  {
    err := None;
    if |args| > 0 {
      var r := CheckCallback(db.data, args);
      err := db.Update(r);
      if err.Some? {
        return;
      }
    }
    err := Pick(db, picked);
  }

  /** The multi-select path of `check`, for the options the user ticks. */
  method Pick(db: Db, picked: seq<string>) returns (err: Option<Error>)
    modifies db
    ensures db.data == Picking(old(db.data), picked)
  {
    var space := ReadSelf(db.data);
    if space.Err? {
      return Some(space.error);
    }
    if space.value !in db.data {
      return Some(NilBucket);
    }
    var b := DeleteTicked(db.data[space.value], picked);
    var _ := db.Update(Ok(db.data[space.value := b]));
    var texts := TickedTexts(picked);
    if picked == [] {
      return None;
    } else if History !in db.data {
      err := db.Update(Err(NilBucket));
    } else if texts.None? {
      err := db.Update(Err(IndexOutOfRange));
    } else {
      var h := ArchiveAll(db.data[History], texts.value);
      err := db.Update(Ok(db.data[History := h]));
    }
  }

  /**
   * The `rm` command. Its multi-select is built but never run
   * (cmd/note.go:281-286), so nothing is ever ticked and its last
   * transaction deletes nothing: only the arguments' transaction counts.
   */
  method Rm(db: Db, args: seq<string>) returns (err: Option<Error>)
    modifies db
    ensures |args| > 0 ==> db.data == Committed(old(db.data), RmTx(old(db.data), args))
    ensures |args| == 0 ==> db.data == old(db.data)
  {
    err := None;
    if |args| > 0 {
      var swept := SweepArgs(db.data, args);
      var r: Outcome := if swept.Err? then Err(swept.error) else Ok(swept.value.0);
      err := db.Update(r);
    }
  }

  // ---------------------------------------------------------------------
  // What check and rm do

  predicate AllParse(args: seq<string>)
  {
    forall i :: 0 <= i < |args| ==> Atoi(args[i]).Some?
  }

  /** The keys the arguments name. */
  function ArgKeys(args: seq<string>): (keys: seq<Key>)
    requires AllParse(args)
    ensures |keys| == |args|
    ensures forall i :: 0 <= i < |args| ==> keys[i] == KeyOf(Atoi(args[i]).value)
  {
    if args == [] then [] else [KeyOf(Atoi(args[0]).value)] + ArgKeys(args[1..])
  }

  /** The distinct keys of a list. */
  function KeySet(keys: seq<Key>): set<Key>
  {
    if keys == [] then {} else {keys[0]} + KeySet(keys[1..])
  }

  /**
   * Reference for the collected texts: the text of each listed key that is
   * present in `items`, at its first listing, in argument order (`seen`
   * holds the keys already listed).
   */
  function FirstListed(items: map<Key, string>, keys: seq<Key>, seen: set<Key>): seq<string>
  {
    if keys == [] then []
    else if keys[0] in items && keys[0] !in seen then [items[keys[0]]] + FirstListed(items, keys[1..], seen + {keys[0]})
    else FirstListed(items, keys[1..], seen)
  }

  /** Each present listed key contributes exactly one text, however often it is listed. */
  lemma {:induction false} FirstListedOnce(items: map<Key, string>, keys: seq<Key>, seen: set<Key>)
    ensures |FirstListed(items, keys, seen)| == |(KeySet(keys) * items.Keys) - seen|
  {
    if keys == [] {
      assert KeySet(keys) == {};
    } else {
      var k, rest := keys[0], keys[1..];
      assert KeySet(keys) == {k} + KeySet(rest);
      var all := (KeySet(keys) * items.Keys) - seen;
      if k in items && k !in seen {
        var later := (KeySet(rest) * items.Keys) - (seen + {k});
        FirstListedOnce(items, rest, seen + {k});
        assert all == later + {k};
        assert k !in later;
        assert |all| == |later| + 1;
      } else {
        FirstListedOnce(items, rest, seen);
        assert (KeySet(rest) * items.Keys) - seen == all;
      }
    }
  }

  /** One round of the argument loop on an argument that parses, with the active space present. */
  lemma SweepStep(db: Tx, tx: Tx, space: string, args: seq<string>, vals: seq<string>)
    requires args != [] && ReadSelf(db) == Ok(space) && space in tx && Atoi(args[0]).Some?
    ensures var b, k := tx[space], KeyOf(Atoi(args[0]).value);
      Sweep(db, tx, args, vals) ==
        if k in b.items then Sweep(db, tx[space := Delete(b, k)], args[1..], vals + [b.items[k]])
        else Sweep(db, tx, args[1..], vals)
  {
  }

  /** The arguments after the first still all parse, and name the remaining keys. */
  lemma ArgKeysTail(args: seq<string>)
    requires args != [] && AllParse(args)
    ensures AllParse(args[1..]) && ArgKeys(args[1..]) == ArgKeys(args)[1..]
  {
    forall i | 0 <= i < |args[1..]|
      ensures Atoi(args[1..][i]).Some?
    {
      assert args[1..][i] == args[i + 1];
    }
  }

  /** Deleting the listed keys one at a time, as the loop does. */
  lemma DrainStep(items: map<Key, string>, seen: set<Key>, keys: seq<Key>)
    requires keys != []
    ensures items - (seen + {keys[0]}) - KeySet(keys[1..]) == items - seen - KeySet(keys)
    ensures keys[0] !in items || keys[0] in seen ==> items - seen - KeySet(keys[1..]) == items - seen - KeySet(keys)
  {
  }

  lemma {:induction false} SweepMoves(db: Tx, tx: Tx, space: string, b: Bucket, seen: set<Key>,
                                      args: seq<string>, vals: seq<string>)
    requires ActiveSpace(db, space) && space in tx && AllParse(args)
    requires tx[space] == b.(items := b.items - seen)
    ensures Sweep(db, tx, args, vals) ==
      Ok((tx[space := b.(items := b.items - seen - KeySet(ArgKeys(args)))],
          vals + FirstListed(b.items, ArgKeys(args), seen)))
    decreases |args|
  {
    var keys := ArgKeys(args);
    if args == [] {
      assert b.items - seen - KeySet(keys) == b.items - seen;
      assert tx[space := b.(items := b.items - seen - KeySet(keys))] == tx;
      assert vals + FirstListed(b.items, keys, seen) == vals;
    } else {
      var k, rest := keys[0], keys[1..];
      ArgKeysTail(args);
      DrainStep(b.items, seen, keys);
      SweepStep(db, tx, space, args, vals);
      var drained := b.(items := b.items - seen - KeySet(keys));
      if k in b.items && k !in seen {
        var v := b.items[k];
        var tx' := tx[space := Delete(tx[space], k)];
        assert tx'[space] == b.(items := b.items - (seen + {k}));
        SweepMoves(db, tx', space, b, seen + {k}, args[1..], vals + [v]);
        assert tx'[space := drained] == tx[space := drained];
        assert vals + [v] + FirstListed(b.items, rest, seen + {k}) == vals + FirstListed(b.items, keys, seen);
      } else {
        SweepMoves(db, tx, space, b, seen, args[1..], vals);
      }
    }
  }

  /** A bad argument or an unresolvable active space anywhere in the loop fails it. */
  lemma {:induction false} SweepFails(db: Tx, tx: Tx, args: seq<string>, vals: seq<string>)
    requires args != []
    requires !AllParse(args) || ReadSelf(db).Err? || ReadSelf(db).value !in tx
    requires ReadSelf(db).Ok? ==> (ReadSelf(db).value in tx <==> ReadSelf(db).value in db)
    ensures Sweep(db, tx, args, vals).Err?
  {
    if ReadSelf(db).Ok? && Atoi(args[0]).Some? && ReadSelf(db).value in tx {
      var space := ReadSelf(db).value;
      var n := Atoi(args[0]).value;
      assert !AllParse(args[1..]) by {
        var i :| 0 <= i < |args| && Atoi(args[i]).None?;
        assert args[1..][i - 1] == args[i];
      }
      var b := tx[space];
      if Get(b, KeyOf(n)).Some? {
        SweepFails(db, tx[space := Delete(b, KeyOf(n))], args[1..], vals + [Get(b, KeyOf(n)).value]);
      } else {
        SweepFails(db, tx, args[1..], vals);
      }
    }
  }

  /**
   * The history loop while its counter does not pass the uint64 maximum:
   * the counter advances by the number of texts, earlier entries stay, every
   * new key decodes above the old counter, and the keys stay issued.
   */
  lemma {:induction false} ArchiveKeeps(h: Bucket, vals: seq<string>)
    requires Issued(h) && h.sequence + |vals| <= MaxUint64
    ensures Archive(h, vals).sequence == h.sequence + |vals|
    ensures forall k :: k in h.items ==> Get(Archive(h, vals), k) == Some(h.items[k])
    ensures forall k :: k in Archive(h, vals).items && k !in h.items ==> |k| == 8 && h.sequence < Uint64(k)
    ensures Issued(Archive(h, vals))
    decreases |vals|
  {
    if vals != [] {
      var id := h.sequence + 1;
      NextKeyFresh(h, vals[0]);
      var h' := Put(NextSequence(h).1, Itob(id), vals[0]);
      assert h'.sequence == id && h'.items == h.items[Itob(id) := vals[0]];
      ArchiveKeeps(h', vals[1..]);
      var a := Archive(h, vals);
      assert a == Archive(h', vals[1..]);
      forall k | k in h.items
        ensures Get(a, k) == Some(h.items[k])
      {
        assert k in h'.items && h'.items[k] == h.items[k];
      }
      forall k | k in a.items && k !in h.items
        ensures |k| == 8 && h.sequence < Uint64(k)
      {
        if k == Itob(id) {
          ItobRoundTrip(id);
        } else {
          assert k !in h'.items;
        }
      }
    }
  }

  /** The history loop stores the i-th text under the old counter plus i + 1. */
  lemma {:induction false} ArchivePlaceAt(h: Bucket, vals: seq<string>, i: nat)
    requires Issued(h) && h.sequence + |vals| <= MaxUint64 && i < |vals|
    ensures Get(Archive(h, vals), Itob(h.sequence + 1 + i)) == Some(vals[i])
    decreases |vals|
  {
    var id := h.sequence + 1;
    NextKeyFresh(h, vals[0]);
    var h' := Put(NextSequence(h).1, Itob(id), vals[0]);
    assert h'.sequence == id;
    assert Archive(h, vals) == Archive(h', vals[1..]);
    if i == 0 {
      assert Itob(id) in h'.items && h'.items[Itob(id)] == vals[0];
      ArchiveKeeps(h', vals[1..]);
    } else {
      ArchivePlaceAt(h', vals[1..], i - 1);
      assert vals[1..][i - 1] == vals[i];
    }
  }

  lemma ArchivePlaces(h: Bucket, vals: seq<string>)
    requires Issued(h) && h.sequence + |vals| <= MaxUint64
    ensures forall i :: 0 <= i < |vals| ==> Get(Archive(h, vals), Itob(h.sequence + 1 + i)) == Some(vals[i])
  {
    forall i | 0 <= i < |vals|
      ensures Get(Archive(h, vals), Itob(h.sequence + 1 + i)) == Some(vals[i])
    {
      ArchivePlaceAt(h, vals, i);
    }
  }

  /** The active space once the argument loop has deleted the listed keys. */
  function Drained(db: Tx, args: seq<string>, space: string): Tx
    requires space in db && AllParse(args)
  {
    db[space := db[space].(items := db[space].items - KeySet(ArgKeys(args)))]
  }

  /** The texts the argument loop collects. */
  function Moved(db: Tx, args: seq<string>, space: string): seq<string>
    requires space in db && AllParse(args)
  {
    FirstListed(db[space].items, ArgKeys(args), {})
  }

  /** The argument loop from the committed root, on arguments that all parse. */
  lemma SweepActive(db: Tx, args: seq<string>, space: string)
    requires ActiveSpace(db, space) && AllParse(args)
    ensures Sweep(db, db, args, []) == Ok((Drained(db, args, space), Moved(db, args, space)))
  {
    var b := db[space];
    assert b == b.(items := b.items - {});
    SweepMoves(db, db, space, b, {}, args, []);
    assert b.items - {} - KeySet(ArgKeys(args)) == b.items - KeySet(ArgKeys(args));
    assert [] + FirstListed(b.items, ArgKeys(args), {}) == FirstListed(b.items, ArgKeys(args), {});
  }

  /** One text per present listed key, so no more texts than arguments. */
  lemma MovedCount(db: Tx, args: seq<string>, space: string)
    requires space in db && AllParse(args)
    ensures |Moved(db, args, space)| == |KeySet(ArgKeys(args)) * db[space].items.Keys| <= |args|
  {
    var b := db[space];
    FirstListedOnce(b.items, ArgKeys(args), {});
    assert (KeySet(ArgKeys(args)) * b.items.Keys) - {} == KeySet(ArgKeys(args)) * b.items.Keys;
    FirstListedShort(b.items, ArgKeys(args), {});
  }

  lemma {:induction false} FirstListedShort(items: map<Key, string>, keys: seq<Key>, seen: set<Key>)
    ensures |FirstListed(items, keys, seen)| <= |keys|
  {
    if keys != [] {
      FirstListedShort(items, keys[1..], seen + {keys[0]});
      FirstListedShort(items, keys[1..], seen);
    }
  }

  /**
   * `check` with arguments that all parse, on an active space other than
   * history: it succeeds unless texts must be archived and there is no
   * history bucket. It then deletes every listed key from the active space
   * (absent keys are skipped), appends the texts of the present keys to
   * history in argument order, each key once however often it is listed,
   * and changes no other bucket.
   */
  lemma CheckMovesToHistory(db: Tx, args: seq<string>, space: string)
    requires ActiveSpace(db, space) && space != History && AllParse(args)
    ensures
      var b := db[space];
      var moved := Moved(db, args, space);
      && |moved| == |KeySet(ArgKeys(args)) * b.items.Keys|
      && (CheckTx(db, args).Ok? <==> moved == [] || History in db)
      && (CheckTx(db, args).Ok? ==>
            var after := CheckTx(db, args).value;
            && after.Keys == db.Keys
            && after[space] == b.(items := b.items - KeySet(ArgKeys(args)))
            && (moved != [] ==> after[History] == Archive(db[History], moved))
            && (forall n :: n in db && n != space && (n != History || moved == []) ==> after[n] == db[n]))
  {
    SweepActive(db, args, space);
    assert CheckTx(db, args) == AppendHistory(Drained(db, args, space), Moved(db, args, space));
    MovedCount(db, args, space);
  }

  /**
   * The history bucket after the history loop, while its counter does not
   * pass the uint64 maximum: the texts sit, in order, under keys that sort
   * after every entry it already had, nothing it had is lost, and its keys
   * stay issued.
   */
  lemma ArchiveAppendsInOrder(h: Bucket, vals: seq<string>)
    requires Issued(h) && h.sequence + |vals| <= MaxUint64
    ensures
      var after := Archive(h, vals);
      && after.sequence == h.sequence + |vals|
      && (forall i :: 0 <= i < |vals| ==> Get(after, Itob(h.sequence + 1 + i)) == Some(vals[i]))
      && (forall k :: k in h.items ==> Get(after, k) == Some(h.items[k]))
      && (forall k, k' :: k in h.items && k' in after.items && k' !in h.items ==> LexLess(k, k'))
      && Issued(after)
  {
    ArchiveKeeps(h, vals);
    ArchivePlaces(h, vals);
    var after := Archive(h, vals);
    forall k, k' | k in h.items && k' in after.items && k' !in h.items
      ensures LexLess(k, k')
    {
      ItobOnto(k);
      ItobOnto(k');
      ItobOrder(Uint64(k), Uint64(k'));
    }
  }

  /**
   * `check` with history present, whatever its counter: it commits the
   * drained active space and the history bucket with the moved texts
   * appended (see `ArchiveAppendsInOrder` for their order below the maximum).
   */
  lemma CheckArchivesInOrder(db: Tx, args: seq<string>, space: string)
    requires ActiveSpace(db, space) && space != History && AllParse(args) && History in db
    ensures |Moved(db, args, space)| <= |args|
    ensures CheckTx(db, args) == Ok(Drained(db, args, space)[History := Archive(db[History], Moved(db, args, space))])
  {
    SweepActive(db, args, space);
    var moved := Moved(db, args, space);
    assert CheckTx(db, args) == AppendHistory(Drained(db, args, space), moved);
    if moved == [] {
      assert Drained(db, args, space)[History := Archive(db[History], moved)] == Drained(db, args, space);
    }
    MovedCount(db, args, space);
  }

  /**
   * An argument that does not parse, or an active space that cannot be
   * resolved, fails the callback of `check` and of `rm`, so the transaction
   * is rolled back and the store is unchanged.
   */
  lemma BadArgumentDiscardsAll(db: Tx, args: seq<string>)
    requires args != []
    requires !AllParse(args) || ReadSelf(db).Err? || ReadSelf(db).value !in db
    ensures CheckTx(db, args).Err? && Committed(db, CheckTx(db, args)) == db
    ensures RmTx(db, args).Err? && Committed(db, RmTx(db, args)) == db
  {
    SweepFails(db, db, args, []);
  }

  /**
   * `rm` with arguments that all parse deletes the listed keys present in
   * the active space, skips absent ones without error, and changes no other
   * bucket; in particular it writes nothing to history.
   */
  lemma RmDeletesListed(db: Tx, args: seq<string>, space: string)
    requires ActiveSpace(db, space) && AllParse(args)
    ensures RmTx(db, args).Ok?
    ensures
      var after := RmTx(db, args).value;
      && after.Keys == db.Keys
      && after[space] == db[space].(items := db[space].items - KeySet(ArgKeys(args)))
      && (forall n :: n in db && n != space ==> after[n] == db[n])
  {
    SweepActive(db, args, space);
  }

  // ---------------------------------------------------------------------
  // The multi-select path of check

  /**
   * The value of the option the check prompt offers for a note
   * (cmd/note.go:198-201): its key number, as `int`, in decimal, a comma,
   * then its text.
   */
  function CheckOption(k: Key, text: string): string
    requires |k| == 8
  {
    Itoa(ToInt64(Uint64(k))) + "," + text
  }

  /** The options for the given notes of a bucket, in that order. */
  function CheckOptions(b: Bucket, keys: seq<Key>): seq<string>
    requires forall i :: 0 <= i < |keys| ==> keys[i] in b.items && |keys[i]| == 8
  {
    if keys == [] then [] else [CheckOption(keys[0], b.items[keys[0]])] + CheckOptions(b, keys[1..])
  }

  /**
   * The key a ticked option deletes (cmd/note.go:218-220): its first field
   * parsed, with the ignored error modelled as 0. Go's `Atoi` gives 0 on a
   * syntax error but the clamped int64 bound on a range error; options built
   * by `CheckOption` always parse (`CheckOptionFields`), so neither occurs.
   */
  function PickedKey(p: string): Key
  {
    KeyOf(match Atoi(FieldOne(p)) case Some(n) => n case None => 0)
  }

  function PickedKeys(picked: seq<string>): seq<Key>
  {
    if picked == [] then [] else [PickedKey(picked[0])] + PickedKeys(picked[1..])
  }

  /** The deletion loop of the multi-select path (cmd/note.go:215-223). */
  function DeletePicked(b: Bucket, picked: seq<string>): Bucket
    decreases |picked|
  {
    if picked == [] then b else DeletePicked(Delete(b, PickedKey(picked[0])), picked[1..])
  }

  /**
   * The texts the history loop stores as written (cmd/note.go:227-231):
   * each option's second comma-separated field; an option with no comma
   * makes the indexing panic.
   */
  function PickedTexts(picked: seq<string>): Option<seq<string>>
  {
    if picked == [] then Some([])
    else match (FieldTwo(picked[0]), PickedTexts(picked[1..]))
      case (Some(t), Some(ts)) => Some([t] + ts)
      case _ => None
  }

  /** The texts as intended: everything after an option's first comma. */
  function PickedTextsIntended(picked: seq<string>): Option<seq<string>>
  {
    if picked == [] then Some([])
    else match (AfterComma(picked[0]), PickedTextsIntended(picked[1..]))
      case (Some(t), Some(ts)) => Some([t] + ts)
      case _ => None
  }

  /**
   * The second write transaction of the multi-select path
   * (cmd/note.go:225-233): `NextSequence` on a missing history bucket
   * panics before any option is split.
   */
  function PickArchiveTx(db: Tx, picked: seq<string>): Outcome
  {
    if picked == [] then Ok(db)
    else if History !in db then Err(NilBucket)
    else match PickedTexts(picked)
      case None => Err(IndexOutOfRange)
      case Some(texts) => Ok(db[History := Archive(db[History], texts)])
  }

  /**
   * The multi-select path (cmd/note.go:190-233) for the options the user
   * ticks: listing the active space panics unless `self` names an existing
   * bucket; then one transaction deletes the ticked keys and commits, and a
   * second one appends the ticked texts to `history`.
   */
  function Picking(db: Tx, picked: seq<string>): Tx
  {
    match ReadSelf(db)
    case Err(_) => db
    case Ok(space) =>
      if space !in db then db
      else
        var deleted := db[space := DeletePicked(db[space], picked)];
        Committed(deleted, PickArchiveTx(deleted, picked))
  }

  /** The whole of `check` (cmd/note.go:153-234). */
  function CheckRun(db: Tx, args: seq<string>, picked: seq<string>): Tx
  {
    if args == [] then Picking(db, picked)
    else match CheckTx(db, args)
      case Err(_) => db
      case Ok(after) => Picking(after, picked)
  }

  /** The deletion loop, run on the bucket. */
  method DeleteTicked(b: Bucket, picked: seq<string>) returns (r: Bucket)
    ensures r == DeletePicked(b, picked)
  {
    r := b;
    var i := 0;
    while i < |picked|
      invariant 0 <= i <= |picked|
      invariant DeletePicked(r, picked[i..]) == DeletePicked(b, picked)
    {
      assert picked[i..][1..] == picked[i + 1..];
      r := Delete(r, PickedKey(picked[i]));
      i := i + 1;
    }
  }

  /** Prefix texts already taken to what the rest of the options give. */
  function Prepend(texts: seq<string>, rest: Option<seq<string>>): Option<seq<string>>
  {
    match rest
    case None => None
    case Some(more) => Some(texts + more)
  }

  /** The splitting done by the history loop, one option at a time. */
  method TickedTexts(picked: seq<string>) returns (r: Option<seq<string>>)
    ensures r == PickedTexts(picked)
  {
    var texts: seq<string> := [];
    var i := 0;
    assert picked[i..] == picked;
    if PickedTexts(picked).Some? {
      assert texts + PickedTexts(picked).value == PickedTexts(picked).value;
    }
    while i < |picked|
      invariant 0 <= i <= |picked|
      invariant Prepend(texts, PickedTexts(picked[i..])) == PickedTexts(picked)
    {
      var rest := picked[i..];
      assert rest[0] == picked[i] && rest[1..] == picked[i + 1..];
      var t := FieldTwo(picked[i]);
      if t.None? {
        assert PickedTexts(rest) == None;
        return None;
      }
      var later := PickedTexts(picked[i + 1..]);
      if later.Some? {
        assert PickedTexts(rest) == Some([t.value] + later.value);
        assert texts + ([t.value] + later.value) == (texts + [t.value]) + later.value;
      }
      texts := texts + [t.value];
      i := i + 1;
    }
    assert picked[i..] == [] && texts + [] == texts;
    return Some(texts);
  }

  /**
   * The option for a note leads back to its key, and its text survives to
   * the first comma only; the text after the first comma is the whole text.
   */
  lemma CheckOptionFields(k: Key, text: string)
    requires |k| == 8
    ensures PickedKey(CheckOption(k, text)) == k
    ensures FieldTwo(CheckOption(k, text)) == Some(FieldOne(text))
    ensures AfterComma(CheckOption(k, text)) == Some(text)
    ensures FieldTwo(CheckOption(k, text)) == Some(text) <==> ',' !in text
  {
    var n := ToInt64(Uint64(k));
    ItoaRoundTrip(n);
    SplitAtComma(Itoa(n), text);
    ItobOnto(k);
  }

  /** A note whose text has a comma is archived cut short at that comma. */
  lemma CheckOptionTruncates()
    ensures FieldTwo(CheckOption(Itob(1), "eggs" + "," + "milk")) == Some("eggs")
  {
    CheckOptionFields(Itob(1), "eggs" + "," + "milk");
    SplitAtComma("eggs", "milk");
  }

  /** Ticking notes gives back their keys, in order. */
  lemma {:induction false} OptionKeys(b: Bucket, keys: seq<Key>)
    requires forall i :: 0 <= i < |keys| ==> keys[i] in b.items && |keys[i]| == 8
    ensures PickedKeys(CheckOptions(b, keys)) == keys
  {
    if keys != [] {
      OptionKeyStep(b, keys);
      OptionKeys(b, keys[1..]);
    }
  }

  lemma OptionKeyStep(b: Bucket, keys: seq<Key>)
    requires keys != []
    requires forall i :: 0 <= i < |keys| ==> keys[i] in b.items && |keys[i]| == 8
    ensures PickedKeys(CheckOptions(b, keys)) == [keys[0]] + PickedKeys(CheckOptions(b, keys[1..]))
  {
    var picked := CheckOptions(b, keys);
    assert picked[0] == CheckOption(keys[0], b.items[keys[0]]) && picked[1..] == CheckOptions(b, keys[1..]);
    CheckOptionFields(keys[0], b.items[keys[0]]);
  }

  /** As written, the ticked notes' texts reach the history loop cut at their first comma. */
  lemma {:induction false} OptionTexts(b: Bucket, keys: seq<Key>)
    requires forall i :: 0 <= i < |keys| ==> keys[i] in b.items && |keys[i]| == 8
    ensures PickedTexts(CheckOptions(b, keys)).Some?
    ensures var ts := PickedTexts(CheckOptions(b, keys)).value;
      |ts| == |keys| && forall i :: 0 <= i < |keys| ==> ts[i] == FieldOne(b.items[keys[i]])
  {
    if keys != [] {
      OptionStep(b, keys);
      OptionTexts(b, keys[1..]);
    }
  }

  /** As intended, every ticked note's whole text reaches the history loop. */
  lemma {:induction false} OptionTextsIntended(b: Bucket, keys: seq<Key>)
    requires forall i :: 0 <= i < |keys| ==> keys[i] in b.items && |keys[i]| == 8
    ensures PickedTextsIntended(CheckOptions(b, keys)).Some?
    ensures var ts := PickedTextsIntended(CheckOptions(b, keys)).value;
      |ts| == |keys| && forall i :: 0 <= i < |keys| ==> ts[i] == b.items[keys[i]]
  {
    if keys != [] {
      OptionStep(b, keys);
      OptionTextsIntended(b, keys[1..]);
    }
  }

  /** The first ticked note's text, as written and as intended, ahead of the rest. */
  lemma OptionStep(b: Bucket, keys: seq<Key>)
    requires keys != []
    requires forall i :: 0 <= i < |keys| ==> keys[i] in b.items && |keys[i]| == 8
    ensures PickedTexts(CheckOptions(b, keys)) ==
      Prepend([FieldOne(b.items[keys[0]])], PickedTexts(CheckOptions(b, keys[1..])))
    ensures PickedTextsIntended(CheckOptions(b, keys)) ==
      Prepend([b.items[keys[0]]], PickedTextsIntended(CheckOptions(b, keys[1..])))
  {
    var text := b.items[keys[0]];
    var picked := CheckOptions(b, keys);
    assert picked[0] == CheckOption(keys[0], text) && picked[1..] == CheckOptions(b, keys[1..]);
    CheckOptionFields(keys[0], text);
  }

  /** The deletion loop removes exactly the ticked keys. */
  lemma {:induction false} DeletePickedRemoves(b: Bucket, picked: seq<string>)
    ensures DeletePicked(b, picked) == b.(items := b.items - KeySet(PickedKeys(picked)))
    decreases |picked|
  {
    if picked != [] {
      var k := PickedKey(picked[0]);
      DeletePickedRemoves(Delete(b, k), picked[1..]);
      assert KeySet(PickedKeys(picked)) == {k} + KeySet(PickedKeys(picked[1..]));
    }
  }

  /**
   * Ticking notes of the active space deletes exactly them from it, appends
   * their texts, as the history loop takes them (see `OptionTexts`), to
   * `history`, and leaves every other bucket alone.
   */
  lemma PickingChecksOff(db: Tx, space: string, keys: seq<Key>)
    requires ActiveSpace(db, space) && space != History && History in db && keys != []
    requires forall i :: 0 <= i < |keys| ==> keys[i] in db[space].items && |keys[i]| == 8
    ensures PickedTexts(CheckOptions(db[space], keys)).Some?
    ensures Picking(db, CheckOptions(db[space], keys)) ==
      db[space := db[space].(items := db[space].items - KeySet(keys))]
        [History := Archive(db[History], PickedTexts(CheckOptions(db[space], keys)).value)]
  {
    var picked := CheckOptions(db[space], keys);
    OptionKeys(db[space], keys);
    OptionTexts(db[space], keys);
    DeletePickedRemoves(db[space], picked);
    PickingSteps(db, space, picked);
  }

  /** The two transactions of the multi-select path, once the listing has worked and every option splits. */
  lemma PickingSteps(db: Tx, space: string, picked: seq<string>)
    requires ActiveSpace(db, space) && space != History && History in db && picked != []
    requires PickedTexts(picked).Some?
    ensures Picking(db, picked) ==
      db[space := DeletePicked(db[space], picked)][History := Archive(db[History], PickedTexts(picked).value)]
  {
  }

  /** With the intended splitting, the history loop would archive the ticked notes' texts whole. */
  function PickArchiveIntended(db: Tx, picked: seq<string>): Outcome
  {
    if picked == [] then Ok(db)
    else if History !in db then Err(NilBucket)
    else match PickedTextsIntended(picked)
      case None => Err(IndexOutOfRange)
      case Some(texts) => Ok(db[History := Archive(db[History], texts)])
  }

  /**
   * The intended archive transaction commits, changing only `history`,
   * into which it puts the texts `IntendedArchive` describes.
   */
  lemma PickArchiveIntendedCommits(db: Tx, space: string, keys: seq<Key>)
    requires History in db && space in db && keys != []
    requires forall i :: 0 <= i < |keys| ==> keys[i] in db[space].items && |keys[i]| == 8
    ensures PickedTextsIntended(CheckOptions(db[space], keys)).Some?
    ensures PickArchiveIntended(db, CheckOptions(db[space], keys)) ==
      Ok(db[History := Archive(db[History], PickedTextsIntended(CheckOptions(db[space], keys)).value)])
  {
    OptionTextsIntended(db[space], keys);
  }

  /**
   * Archiving the intended texts of ticked notes stores each note's whole
   * text, in order, under the history counter's next numbers, and keeps
   * what history had.
   */
  lemma IntendedArchive(h: Bucket, b: Bucket, keys: seq<Key>)
    requires forall i :: 0 <= i < |keys| ==> keys[i] in b.items && |keys[i]| == 8
    requires Issued(h) && h.sequence + |keys| <= MaxUint64
    ensures PickedTextsIntended(CheckOptions(b, keys)).Some?
    ensures var after := Archive(h, PickedTextsIntended(CheckOptions(b, keys)).value);
      && (forall i :: 0 <= i < |keys| ==> Get(after, Itob(h.sequence + 1 + i)) == Some(b.items[keys[i]]))
      && (forall k :: k in h.items ==> Get(after, k) == Some(h.items[k]))
  {
    OptionTextsIntended(b, keys);
    var ts := PickedTextsIntended(CheckOptions(b, keys)).value;
    ArchiveKeeps(h, ts);
    ArchivePlaces(h, ts);
  }

  // ---------------------------------------------------------------------
  // history clean

  /**
   * The transaction of `history clean` (cmd/note.go:320-335): drop the
   * history bucket and create it again; the errors of both calls are ignored.
   */
  function CleanTx(db: Tx): Outcome
  {
    var dropped := match DeleteBucket(db, History) case Ok(t) => t case Err(_) => db;
    var created := match CreateBucket(dropped, History) case Ok(t) => t case Err(_) => dropped;
    Ok(created)
  }

  /** After `history clean`, history is a fresh bucket (no entries, counter 0) and nothing else changed. */
  lemma HistoryCleanEmpties(db: Tx)
    ensures CleanTx(db).Ok?
    ensures History in CleanTx(db).value && CleanTx(db).value[History] == Empty
    ensures forall n :: n != History ==> (n in CleanTx(db).value <==> n in db)
    ensures forall n :: n in db && n != History ==> CleanTx(db).value[n] == db[n]
  {
  }

  method HistoryClean(db: Db) returns (err: Option<Error>)
    modifies db
    ensures db.data == Committed(old(db.data), CleanTx(old(db.data)))
  {
    err := db.Update(CleanTx(db.data));
  }
}
