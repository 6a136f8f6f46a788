/**
 * `StoreService`: the five store routes and the broker-message handler,
 * acting step by step on the committed `stores` table. Every state-changing
 * method is proved to end in the state the matching function of `Lifecycle`
 * describes, and to keep the table invariant.
 *
 * Database reads, the session and commit are collapsed into operations on
 * the `table` field; a change staged in the session but never committed is a
 * local variable that is dropped.
 */
module Routes {
  import opened Wrappers
  import opened Fingerprint
  import opened Models
  import opened StoreTable
  import opened Lifecycle
  import opened LifecycleProperties

  class StoreService {
    /** `__calculate_hash`, and the hash `Store.__init__` uses. */
    const hash: Hasher
    /** The committed rows of the `stores` table, keyed by `id`. */
    var table: Table

    ghost predicate Valid()
      reads this
    {
      TableInvariant(hash, table)
    }

    /** The service attaches to a table these routes could have produced, for instance an empty one. */
    constructor (hash: Hasher, rows: Table)
      requires TableInvariant(hash, rows)
      ensures Valid()
      ensures this.hash == hash && table == rows
    {
      this.hash := hash;
      table := rows;
    }

    /** GET /store/exists. */
    method CheckStoreExists(storeId: string) returns (present: bool)
      ensures present <==> storeId in table
    {
      present := storeId in table;
    }

    /** GET /store. */
    method ReadStore(storeId: string) returns (r: Result<Store, StoreError>)
      ensures storeId in table ==> r == Ok(table[storeId])
      ensures storeId !in table ==> r == Err(NotFound)
    {
      if storeId !in table {
        return Err(NotFound);
      }
      r := Ok(table[storeId]);
    }

    /** POST /store: check, build, commit, then submit the embedding job. */
    method CreateStore(storeId: string, products: string, reply: EmbeddingReply)
      returns (r: Result<Store, StoreError>, job: Option<Job>)
      requires Valid()
      modifies this
      ensures Valid()
      ensures Step(table, r, job) == Create(hash, old(table), storeId, products, reply)
    {
      CreatePreservesInvariant(hash, table, storeId, products, reply);
      job := None;
      if storeId in table {
        r := Err(AlreadyExists);
        return;
      }
      var built := NewStore(hash, Some(storeId), None, Some(products));
      if built.Err? {
        r := Err(InvalidStore(built.error));
        return;
      }
      var newStore := built.value;
      // db.add and commit: the commit enforces the unique constraint on id_hashed
      if SelectByFingerprint(table, newStore.idHashed) != NoRow {
        r := Err(IntegrityError);
        return;
      }
      table := table[storeId := newStore];
      // the job is submitted after the commit; its failure does not undo it
      job := Some(Job(newStore.idHashed, newStore.products));
      if Raises(reply) {
        r := Err(EmbeddingFailed);
        return;
      }
      r := Ok(newStore);
    }

    /** PATCH /store: compare hashes, edit the row in the session, submit, then commit. */
    method UpdateStore(storeId: string, products: string, reply: EmbeddingReply)
      returns (r: Result<Store, StoreError>, job: Option<Job>)
      requires Valid()
      modifies this
      ensures Valid()
      ensures Step(table, r, job) == Update(hash, old(table), storeId, products, reply)
    {
      UpdatePreservesInvariant(hash, table, storeId, products, reply);
      job := None;
      if storeId !in table {
        r := Err(NotFound);
        return;
      }
      var existing := table[storeId];
      if hash(products) == existing.productsHashed {
        r := Err(NotModified);
        return;
      }
      // the tracked row is edited in the session; nothing is committed yet
      existing := existing.(products := products);
      existing := existing.(productsHashed := hash(products));
      job := Some(Job(existing.idHashed, existing.products));
      if Raises(reply) {
        // the request fails before the commit and the session's edit is discarded
        r := Err(EmbeddingFailed);
        return;
      }
      table := table[storeId := existing];
      r := Ok(existing);
    }

    /** DELETE /store. */
    method DeleteStore(storeId: string) returns (r: Result<Store, StoreError>)
      requires Valid()
      modifies this
      ensures Valid()
      ensures Step(table, r, None) == Delete(old(table), storeId)
    {
      if storeId !in table {
        return Err(NotFound);
      }
      var existing := table[storeId];
      table := table - {storeId};
      r := Ok(existing);
    }

    /** The subscription callback for embedding-created messages. */
    method HandleBrokerMessage(msg: BrokerMessage) returns (outcome: CompletionOutcome)
      requires Valid()
      modifies this
      ensures Valid()
      ensures Reconciled(table, outcome) == Complete(old(table), msg)
      ensures outcome != MultipleStoresFound
    {
      CompletePreservesInvariant(hash, table, msg);
      InvariantRulesOutMultipleMatches(hash, table, msg);
      match msg {
        case Undecodable =>
          // `msg.data.decode()` raises before the try block
          outcome := HandlerRaised;
        case MalformedJson =>
          outcome := JsonDecodeFailed;
        case NotAnObject =>
          // `json_data.get` raises AttributeError, which no except clause catches
          outcome := HandlerRaised;
        case Decoded(hashedStoreId, path) =>
          var found := FindByFingerprint(table, hashedStoreId);
          match found {
            case NoRow =>
              outcome := StoreNotFound;
            case ManyRows =>
              outcome := MultipleStoresFound;
            case OneRow(id) =>
              var store := table[id];
              store := store.(embeddedIndexPath := path);
              store := store.(embedded := true);
              table := table[id := store];
              outcome := Applied(id);
          }
      }
    }
  }
}
