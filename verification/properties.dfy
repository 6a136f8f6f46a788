/**
 * Properties of the store lifecycle that relate several operations, or that
 * hold of every operation: the table invariant is kept, a completion is
 * idempotent and last-write-wins, and fingerprints connect a submitted job to
 * the row its completion marks. The lemmas about a single step follow from
 * the postconditions of the `Lifecycle` functions; those about a sequence of
 * events are proved by induction on the sequence.
 */
module LifecycleProperties {
  import opened Wrappers
  import opened Fingerprint
  import opened Models
  import opened StoreTable
  import opened Lifecycle

  lemma CreatePreservesInvariant(hash: Hasher, t: Table, storeId: string, products: string, reply: EmbeddingReply)
    requires TableInvariant(hash, t)
    ensures TableInvariant(hash, Create(hash, t, storeId, products, reply).table)
  {
  }

  lemma UpdatePreservesInvariant(hash: Hasher, t: Table, storeId: string, products: string, reply: EmbeddingReply)
    requires TableInvariant(hash, t)
    ensures TableInvariant(hash, Update(hash, t, storeId, products, reply).table)
  {
  }

  lemma DeletePreservesInvariant(hash: Hasher, t: Table, storeId: string)
    requires TableInvariant(hash, t)
    ensures TableInvariant(hash, Delete(t, storeId).table)
  {
  }

  lemma CompletePreservesInvariant(hash: Hasher, t: Table, msg: BrokerMessage)
    requires TableInvariant(hash, t)
    ensures TableInvariant(hash, Complete(t, msg).table)
  {
  }

  /** While the invariant holds, the handler's MultipleResultsFound branch is unreachable. */
  lemma InvariantRulesOutMultipleMatches(hash: Hasher, t: Table, msg: BrokerMessage)
    requires TableInvariant(hash, t)
    ensures Complete(t, msg).outcome != MultipleStoresFound
  {
  }

  /** Marking a row embedded leaves every fingerprint where it was. */
  lemma CompleteKeepsFingerprints(t: Table, msg: BrokerMessage)
    ensures forall k | k in t :: Complete(t, msg).table[k].idHashed == t[k].idHashed
  {
  }

  /** Delivering the same completion twice leaves the table and the outcome as delivering it once. */
  lemma CompleteIdempotent(t: Table, msg: BrokerMessage)
    ensures Complete(Complete(t, msg).table, msg) == Complete(t, msg)
  {
  }

  /**
   * Two completions for the same fingerprint: the second one decides the index
   * path, whatever the first one said. There is no stale-completion check.
   */
  lemma CompletionLastWriteWins(t: Table, fp: string, first: Option<string>, second: Option<string>)
    ensures Complete(Complete(t, Decoded(Some(fp), first)).table, Decoded(Some(fp), second))
         == Complete(t, Decoded(Some(fp), second))
  {
  }

  /** Updating a store with the products it already holds is a no-op: no job, no change. */
  lemma UpdateWithStoredProductsNotModified(hash: Hasher, t: Table, storeId: string, reply: EmbeddingReply)
    requires TableInvariant(hash, t)
    requires storeId in t
    ensures Update(hash, t, storeId, t[storeId].products, reply) == Step(t, Err(NotModified), None)
  {
  }

  /** Repeating an update that succeeded reports "not modified" and changes nothing more. */
  lemma UpdateTwiceNotModified(hash: Hasher, t: Table, storeId: string, products: string,
                               first: EmbeddingReply, second: EmbeddingReply)
    requires Update(hash, t, storeId, products, first).result.Ok?
    ensures var t' := Update(hash, t, storeId, products, first).table;
      Update(hash, t', storeId, products, second) == Step(t', Err(NotModified), None)
  {
  }

  /**
   * A completion that arrives after its store was deleted finds no row (the
   * unique constraint means no other row carries that fingerprint) and changes
   * nothing: it is discarded as not found, never resurrecting the store.
   */
  lemma DeleteThenCompleteFindsNothing(hash: Hasher, t: Table, storeId: string, path: Option<string>)
    requires TableInvariant(hash, t)
    requires storeId in t
    ensures var t' := Delete(t, storeId).table;
      && storeId !in t'
      && Complete(t', Decoded(Some(hash(storeId)), path)) == Reconciled(t', StoreNotFound)
  {
  }

  /**
   * A store that was committed by a create is the row the completion of its
   * job marks embedded, whether or not the submission reported a failure.
   */
  lemma CreateThenCompleteEmbeds(hash: Hasher, t: Table, storeId: string, products: string,
                                 reply: EmbeddingReply, path: Option<string>)
    requires TableInvariant(hash, t)
    requires Create(hash, t, storeId, products, reply).job.Some?
    ensures var s := Create(hash, t, storeId, products, reply);
      var c := Complete(s.table, Decoded(Some(s.job.value.hashedStoreId), path));
      && c.outcome == Applied(storeId)
      && c.table[storeId].embedded && c.table[storeId].embeddedIndexPath == path
      && c.table[storeId].products == products
  {
  }

  /**
   * Creating a new store whose fingerprint no other store shares always
   * commits it, unembedded, with the given products, even if the submission
   * of its embedding job fails afterwards.
   */
  lemma CreateCommitsFreshStore(hash: Hasher, t: Table, storeId: string, products: string, reply: EmbeddingReply)
    requires TableInvariant(hash, t)
    requires storeId !in t && storeId != ""
    requires forall k | k in t :: hash(k) != hash(storeId)
    ensures var s := Create(hash, t, storeId, products, reply);
      && storeId in s.table
      && s.table[storeId].products == products
      && NotEmbedded(s.table[storeId])
      && (s.result.Ok? || s.result == Err(EmbeddingFailed))
  {
  }

  /** Every event keeps the table invariant. */
  lemma ApplyPreservesInvariant(hash: Hasher, t: Table, e: Event)
    requires TableInvariant(hash, t)
    ensures TableInvariant(hash, Apply(hash, t, e))
  {
    match e
    case ExistsRequest(_) =>
    case ReadRequest(_) =>
    case CreateRequest(storeId, products, reply) => CreatePreservesInvariant(hash, t, storeId, products, reply);
    case UpdateRequest(storeId, products, reply) => UpdatePreservesInvariant(hash, t, storeId, products, reply);
    case DeleteRequest(storeId) => DeletePreservesInvariant(hash, t, storeId);
    case Message(msg) => CompletePreservesInvariant(hash, t, msg);
  }

  /**
   * The table-wide invariant holds in every state the service reaches: each
   * row sits under its own id, `id_hashed` = hash(id) and `products_hashed` =
   * hash(products), and no two rows share an `id_hashed`.
   */
  lemma {:induction false} RunPreservesInvariant(hash: Hasher, t: Table, events: seq<Event>)
    requires TableInvariant(hash, t)
    ensures TableInvariant(hash, Run(hash, t, events))
    decreases |events|
  {
    if events != [] {
      ApplyPreservesInvariant(hash, t, events[0]);
      RunPreservesInvariant(hash, Apply(hash, t, events[0]), events[1..]);
    }
  }

  /** Broker messages alone, however many and in whatever order, never add or remove a store. */
  lemma {:induction false} MessagesNeverCreate(hash: Hasher, t: Table, events: seq<Event>)
    requires forall i | 0 <= i < |events| :: events[i].Message?
    ensures Run(hash, t, events).Keys == t.Keys
    decreases |events|
  {
    if events != [] {
      MessagesNeverCreate(hash, Apply(hash, t, events[0]), events[1..]);
    }
  }

  /**
   * A store present after any sequence of events was either there at the
   * start or is the id of a create request among the events: neither an
   * update nor a completion message ever brings a store into existence.
   */
  lemma {:induction false} StoresComeFromCreate(hash: Hasher, t: Table, events: seq<Event>, storeId: string)
    requires storeId in Run(hash, t, events)
    ensures storeId in t || exists i | 0 <= i < |events| :: events[i].CreateRequest? && events[i].storeId == storeId
    decreases |events|
  {
    if events != [] {
      var t' := Apply(hash, t, events[0]);
      StoresComeFromCreate(hash, t', events[1..], storeId);
      if storeId !in t' {
        var i :| 0 <= i < |events[1..]| && events[1..][i].CreateRequest? && events[1..][i].storeId == storeId;
        assert events[i + 1] == events[1..][i];
      } else if storeId !in t {
        assert events[0].CreateRequest? && events[0].storeId == storeId;
      }
    }
  }
}
