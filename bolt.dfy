/**
 * The part of the embedded key/value store (bbolt) that the commands use:
 * named buckets at the root, each with a sequence counter and key/value
 * pairs, and read-write transactions that are all-or-nothing.
 */
module Bolt {
  import opened Wrappers
  import opened Keys

  /**
   * A bucket: the counter `NextSequence` advances, and the key/value pairs,
   * which the store keeps and iterates in the byte order of the keys.
   */
  datatype Bucket = Bucket(sequence: uint64, items: map<Key, string>)

  /** A freshly created bucket. */
  const Empty: Bucket := Bucket(0, map[])

  /**
   * The root of the database as a transaction sees it: buckets by name.
   * The store refuses a blank bucket name, so "" never names a bucket.
   */
  type Tx = m: map<string, Bucket> | "" !in m witness map[]

  datatype Error =
    | ParseError          // strconv.Atoi rejected an argument
    | KeyNotFound         // the command's own "key doenst exist" error
    | NilBucket           // a method called on a nil *Bucket panicked
    | MissingArgument     // args[0] with no arguments panicked
    | BucketExists        // CreateBucket of a name already present
    | BucketNotFound      // DeleteBucket of a name not present
    | BucketNameRequired  // a bucket name that is blank
    | Reserved            // a space name that is `internal` or `history`
    | SelectedSpace       // deleting the space `self` names
    | SpaceNotFound       // the command's own "space does not exist" error
    | EmptyInput          // a prompt validator refused an empty text
    | PromptAborted       // a prompt returned an error
    | Exit                // os.Exit(1) before Commit
    | Uncommitted         // returned before Commit: the deferred Rollback discards the writes
    | IndexOutOfRange     // indexing past the end of a slice panicked

  /** What a read-write transaction's callback leaves: a new root, or an error. */
  type Outcome = Result<Tx, Error>

  function Get(b: Bucket, k: Key): Option<string>
  {
    if k in b.items then Some(b.items[k]) else None
  }

  function Put(b: Bucket, k: Key, v: string): Bucket
  {
    b.(items := b.items[k := v])
  }

  /** Deleting a key that is not there is not an error. */
  function Delete(b: Bucket, k: Key): Bucket
  {
    b.(items := b.items - {k})
  }

  /** `Bucket.NextSequence`: the counter plus one (a uint64, so it wraps), which becomes the new counter. */
  function NextSequence(b: Bucket): (uint64, Bucket)
  {
    var id := if b.sequence == MaxUint64 then 0 else b.sequence + 1;
    (id, b.(sequence := id))
  }

  function CreateBucket(tx: Tx, name: string): (r: Outcome)
    ensures r.Ok? <==> name != "" && name !in tx
    ensures r.Ok? ==> r.value == tx[name := Empty]
  {
    if name == "" then Err(BucketNameRequired)
    else if name in tx then Err(BucketExists)
    else Ok(tx[name := Empty])
  }

  function CreateBucketIfNotExists(tx: Tx, name: string): (r: Outcome)
    ensures r.Ok? <==> name != ""
    ensures r.Ok? ==> name in r.value && (name in tx ==> r.value == tx)
    ensures r.Ok? && name !in tx ==> r.value == tx[name := Empty]
  {
    if name == "" then Err(BucketNameRequired)
    else if name in tx then Ok(tx)
    else Ok(tx[name := Empty])
  }

  function DeleteBucket(tx: Tx, name: string): (r: Outcome)
    ensures r.Ok? <==> name in tx
    ensures r.Ok? ==> name !in r.value && forall n :: n in tx && n != name ==> n in r.value && r.value[n] == tx[n]
    ensures r.Ok? ==> r.value.Keys == tx.Keys - {name}
  {
    if name !in tx then Err(BucketNotFound) else Ok(tx - {name})
  }

  /**
   * The rule of every read-write transaction: the callback's writes are
   * committed when it returns without error, and discarded entirely (the
   * deferred Rollback, or the rollback bbolt performs on a panic) otherwise.
   */
  function Committed(before: Tx, outcome: Outcome): (after: Tx)
    ensures outcome.Err? ==> after == before
    ensures outcome.Ok? ==> after == outcome.value
  {
    if outcome.Ok? then outcome.value else before
  }

  /**
   * The callback of the add commands: take the bucket's next sequence number
   * and store the text under its 8-byte encoding.
   */
  function PutNext(tx: Tx, name: string, text: string): (r: Outcome)
    ensures r.Ok? <==> name in tx
    ensures r.Ok? ==> r.value.Keys == tx.Keys && forall n :: n in tx && n != name ==> r.value[n] == tx[n]
  {
    if name !in tx then Err(NilBucket)
    else
      var (id, b) := NextSequence(tx[name]);
      Ok(tx[name := Put(b, Itob(id), text)])
  }

  /**
   * Every key of the bucket is one its counter has already issued: an 8-byte
   * encoding of a number no larger than the counter.
   */
  ghost predicate Issued(b: Bucket)
  {
    forall k :: k in b.items ==> |k| == 8 && Uint64(k) <= b.sequence
  }

  /**
   * While the counter has not reached the uint64 maximum, the key
   * `NextSequence` hands out is new to the bucket and sorts after every key
   * in it, and storing under it keeps every key issued.
   */
  lemma NextKeyFresh(b: Bucket, text: string)
    requires Issued(b) && b.sequence < MaxUint64
    ensures NextSequence(b).0 == b.sequence + 1
    ensures Itob(b.sequence + 1) !in b.items
    ensures forall k :: k in b.items ==> LexLess(k, Itob(b.sequence + 1))
    ensures Issued(Put(NextSequence(b).1, Itob(b.sequence + 1), text))
  {
    var id: uint64 := b.sequence + 1;
    forall k | k in b.items
      ensures LexLess(k, Itob(id))
    {
      ItobOnto(k);
      ItobOrder(Uint64(k), id);
    }
    if Itob(id) in b.items {
      ItobRoundTrip(id);
    }
    ItobRoundTrip(id);
  }

  /** The open database handle: the committed root. */
  class Db {
    var data: Tx

    constructor (initial: Tx)
      ensures data == initial
    {
      data := initial;
    }

    /**
     * Ends a read-write transaction begun from `data` whose callback produced
     * `outcome`: commit on success, roll back on error.
     */
    method Update(outcome: Outcome) returns (err: Option<Error>)
      modifies this
      ensures data == Committed(old(data), outcome)
      ensures err == if outcome.Ok? then None else Some(outcome.error)
    {
      if outcome.Ok? {
        data := outcome.value;
        err := None;
      } else {
        err := Some(outcome.error);
      }
    }
  }
}
