/**
 * The store lifecycle of the data-lake `StoreService`, as pure transitions on
 * the committed table. Each function takes the committed table before the
 * request or message and gives the committed table after it, together with
 * what the caller sees and the embedding job that was submitted, if any.
 * The class in routes.dfy performs the same steps one at a time.
 */
module Lifecycle {
  import opened Wrappers
  import opened Fingerprint
  import opened Models
  import opened StoreTable

  /**
   * What `CreateProduct` gave back: a response whose status is or is not
   * STATUS_FAILED, or a gRPC error raised by the call itself.
   */
  datatype EmbeddingReply = Responded(statusFailed: bool) | RpcError

  /** `__create_embedding` raises exactly when the status is STATUS_FAILED or the call failed. */
  predicate Raises(reply: EmbeddingReply)
    // the route goes on exactly when the service answered with a status other than STATUS_FAILED
    ensures !Raises(reply) <==> reply == Responded(false)
  {
    reply.RpcError? || reply.statusFailed
  }

  /** The `CreateProductRequest` sent to the embedding service. */
  datatype Job = Job(hashedStoreId: string, text: string)

  /** The errors the store routes report to their caller. */
  datatype StoreError =
    | AlreadyExists                       // 400 "Store with this id already exists"
    | NotFound                            // 404
    | NotModified                         // 304 "no update needed"
    | InvalidStore(cause: ConstructError) // `Store.__init__` raised
    | IntegrityError                      // the commit broke the unique constraint on id_hashed
    | EmbeddingFailed                     // 500 "Failed to create embedding", or the gRPC error

  /** The committed table after a request, the response, and the job submitted on the way. */
  datatype Step = Step(table: Table, result: Result<Store, StoreError>, job: Option<Job>)

  /**
   * POST /store. Rejects a known id; otherwise builds the row, commits it, and
   * only then submits the embedding job, so a failed submission still leaves
   * the new row committed.
   */
  function Create(hash: Hasher, t: Table, storeId: string, products: string, reply: EmbeddingReply): (s: Step)
    ensures storeId in t ==> s == Step(t, Err(AlreadyExists), None)
    ensures storeId !in t && storeId == "" ==> s == Step(t, Err(InvalidStore(IdRequired)), None)
    ensures s.result == Err(IntegrityError) <==>
      storeId !in t && storeId != "" && SelectByFingerprint(t, hash(storeId)) != NoRow
    ensures s.result == Err(IntegrityError) ==> s.table == t && s.job == None
    // a job is submitted exactly when a new row was committed
    ensures s.job.Some? <==> storeId in s.table && storeId !in t
    ensures storeId in s.table && storeId !in t ==>
      var row := s.table[storeId];
      && s.table.Keys == t.Keys + {storeId}
      && (forall k | k in t :: s.table[k] == t[k])
      && row.id == storeId && row.kind.None? && row.products == products
      && Consistent(hash, row) && NotEmbedded(row)
      && s.job == Some(Job(row.idHashed, products))
      && s.result == (if Raises(reply) then Err(EmbeddingFailed) else Ok(row))
    // a fresh, non-empty id whose fingerprint no row carries is always committed
    ensures storeId !in t && storeId != "" && SelectByFingerprint(t, hash(storeId)) == NoRow ==> storeId in s.table
  {
    if storeId in t then Step(t, Err(AlreadyExists), None)
    else
      match NewStore(hash, Some(storeId), None, Some(products))
      case Err(e) => Step(t, Err(InvalidStore(e)), None)
      case Ok(row) =>
        if SelectByFingerprint(t, row.idHashed) != NoRow then Step(t, Err(IntegrityError), None)
        else
          var committed := t[storeId := row];
          var job := Job(row.idHashed, row.products);
          Step(committed, if Raises(reply) then Err(EmbeddingFailed) else Ok(row), Some(job))
  }

  /**
   * PATCH /store. Not found when absent; "not modified" when the hash of the
   * new products equals the stored `products_hashed`; otherwise the row is
   * edited in the session, the job is submitted, and the edit is committed
   * only if the submission did not raise.
   */
  function Update(hash: Hasher, t: Table, storeId: string, products: string, reply: EmbeddingReply): (s: Step)
    ensures storeId !in t ==> s == Step(t, Err(NotFound), None)
    ensures storeId in t && hash(products) == t[storeId].productsHashed ==> s == Step(t, Err(NotModified), None)
    ensures storeId in t && hash(products) != t[storeId].productsHashed ==>
      && s.job == Some(Job(t[storeId].idHashed, products))
      && (Raises(reply) ==> s.table == t && s.result == Err(EmbeddingFailed))
      && (!Raises(reply) ==> s.result.Ok? && s.table == t[storeId := s.result.value])
    ensures s.result.Ok? ==>
      var before := t[storeId];
      var row := s.result.value;
      && storeId in t
      && row.products == products && row.productsHashed == hash(products)
      && row.id == before.id && row.idHashed == before.idHashed && row.kind == before.kind
      && row.embedded == before.embedded && row.embeddedIndexPath == before.embeddedIndexPath
  {
    if storeId !in t then Step(t, Err(NotFound), None)
    else
      var existing := t[storeId];
      if hash(products) == existing.productsHashed then Step(t, Err(NotModified), None)
      else
        var edited := existing.(products := products, productsHashed := hash(products));
        var job := Some(Job(edited.idHashed, edited.products));
        if Raises(reply) then Step(t, Err(EmbeddingFailed), job)
        else Step(t[storeId := edited], Ok(edited), job)
  }

  /** DELETE /store. Not found when absent; otherwise removes exactly that row and returns it. */
  function Delete(t: Table, storeId: string): (s: Step)
    ensures s.job == None
    ensures storeId !in t ==> s == Step(t, Err(NotFound), None)
    ensures storeId in t ==>
      && s.result == Ok(t[storeId])
      && s.table.Keys == t.Keys - {storeId}
      && forall k | k in s.table :: s.table[k] == t[k]
  {
    if storeId !in t then Step(t, Err(NotFound), None)
    else Step(t - {storeId}, Ok(t[storeId]), None)
  }

  /**
   * A completion message from the broker, after decoding: bytes that are not
   * UTF-8, text that is not JSON, JSON that is not an object, or an object
   * whose "hashed_store_id" and "path" keys may be absent.
   */
  datatype BrokerMessage =
    | Undecodable
    | MalformedJson
    | NotAnObject
    | Decoded(hashedStoreId: Option<string>, path: Option<string>)

  /** What the handler does with a message; only `Applied` changes the table. */
  datatype CompletionOutcome =
    | Applied(id: string)  // row found, marked embedded, committed
    | StoreNotFound        // logged "Store with id_hashed ... not found"
    | MultipleStoresFound  // MultipleResultsFound caught and logged
    | JsonDecodeFailed     // JSONDecodeError caught and logged
    | HandlerRaised        // an exception the handler does not catch

  datatype Reconciled = Reconciled(table: Table, outcome: CompletionOutcome)

  /**
   * The lookup by the message's fingerprint. A missing key makes the query
   * `id_hashed IS NULL`, which matches no row because the column is not nullable.
   */
  function FindByFingerprint(t: Table, hashedStoreId: Option<string>): (r: Lookup)
    ensures r == NoRow <==> hashedStoreId.None? || forall k | k in t :: t[k].idHashed != hashedStoreId.value
    ensures r.OneRow? ==>
      && r.id in t && hashedStoreId == Some(t[r.id].idHashed)
      && forall k | k in t && t[k].idHashed == t[r.id].idHashed :: k == r.id
    ensures r == ManyRows <==>
      && hashedStoreId.Some?
      && exists a, b | a in t && b in t :: a != b && t[a].idHashed == hashedStoreId.value && t[b].idHashed == hashedStoreId.value
  {
    match hashedStoreId
    case None => NoRow
    case Some(fp) => SelectByFingerprint(t, fp)
  }

  /**
   * `__handle_broker_message`. The only change it can make is to mark the one
   * row whose `id_hashed` is the message's fingerprint as embedded at the
   * message's path; it never creates or deletes a row, and it has no notion of
   * a stale completion: the last message applied wins.
   */
  function Complete(t: Table, msg: BrokerMessage): (c: Reconciled)
    ensures c.table.Keys == t.Keys
    ensures !c.outcome.Applied? ==> c.table == t
    ensures msg.Undecodable? || msg.NotAnObject? ==> c.outcome == HandlerRaised
    ensures msg.MalformedJson? ==> c.outcome == JsonDecodeFailed
    ensures msg.Decoded? ==>
      (c.outcome == StoreNotFound <==>
        msg.hashedStoreId.None? || forall k | k in t :: t[k].idHashed != msg.hashedStoreId.value)
    ensures msg.Decoded? ==> c.outcome != HandlerRaised && c.outcome != JsonDecodeFailed
    ensures c.outcome == MultipleStoresFound <==>
      && msg.Decoded? && msg.hashedStoreId.Some?
      && exists a, b | a in t && b in t ::
           a != b && t[a].idHashed == msg.hashedStoreId.value && t[b].idHashed == msg.hashedStoreId.value
    // a decoded message whose fingerprint is carried by exactly one row is applied to that row
    ensures msg.Decoded? && msg.hashedStoreId.Some?
      && (exists k | k in t :: t[k].idHashed == msg.hashedStoreId.value)
      && (forall a, b | a in t && b in t && t[a].idHashed == msg.hashedStoreId.value
                        && t[b].idHashed == msg.hashedStoreId.value :: a == b)
      ==> c.outcome.Applied?
    ensures c.outcome.Applied? ==>
      var id := c.outcome.id;
      && msg.Decoded? && id in t && msg.hashedStoreId == Some(t[id].idHashed)
      && (forall k | k in t && t[k].idHashed == t[id].idHashed :: k == id)
      && (forall k | k in t && k != id :: c.table[k] == t[k])
      && c.table[id].embedded && c.table[id].embeddedIndexPath == msg.path
      && c.table[id].id == t[id].id && c.table[id].idHashed == t[id].idHashed
      && c.table[id].kind == t[id].kind && c.table[id].products == t[id].products
      && c.table[id].productsHashed == t[id].productsHashed
  {
    match msg
    case Undecodable => Reconciled(t, HandlerRaised)
    case MalformedJson => Reconciled(t, JsonDecodeFailed)
    case NotAnObject => Reconciled(t, HandlerRaised)
    case Decoded(hashedStoreId, path) =>
      match FindByFingerprint(t, hashedStoreId)
      case NoRow => Reconciled(t, StoreNotFound)
      case ManyRows => Reconciled(t, MultipleStoresFound)
      case OneRow(id) =>
        Reconciled(t[id := t[id].(embeddedIndexPath := path, embedded := true)], Applied(id))
  }

  /** One thing the service handles: a request on one of its routes, or a broker message. */
  datatype Event =
    | ExistsRequest(storeId: string)
    | ReadRequest(storeId: string)
    | CreateRequest(storeId: string, products: string, reply: EmbeddingReply)
    | UpdateRequest(storeId: string, products: string, reply: EmbeddingReply)
    | DeleteRequest(storeId: string)
    | Message(msg: BrokerMessage)

  /** The committed table after one event; exists and read change nothing. */
  function Apply(hash: Hasher, t: Table, e: Event): Table {
    match e
    case ExistsRequest(_) => t
    case ReadRequest(_) => t
    case CreateRequest(storeId, products, reply) => Create(hash, t, storeId, products, reply).table
    case UpdateRequest(storeId, products, reply) => Update(hash, t, storeId, products, reply).table
    case DeleteRequest(storeId) => Delete(t, storeId).table
    case Message(msg) => Complete(t, msg).table
  }

  /** The committed table after the events, handled one at a time in order. */
  function Run(hash: Hasher, t: Table, events: seq<Event>): Table
    decreases |events|
  {
    if events == [] then t else Run(hash, Apply(hash, t, events[0]), events[1..])
  }
}
