# Store lifecycle of the data-lake service, in Dafny

This project models the store lifecycle of the data-lake service
(`src/python/datalakesvc/app/store`): the `stores` table of `Store` rows, the
five HTTP routes of `StoreService` (exists, read, create, update, delete), and
the broker callback that marks a store as embedded when the embedding service
announces that its index is built.

## Layout

- `wrappers.dfy` (`Wrappers`): `Option` and `Result`.
- `fingerprint.dfy` (`Fingerprint`): the SHA-256 hex digest. `Digest` is a
  64-character lower-case hex string, the width of the `id_hashed` and
  `products_hashed` columns. `Hasher` is the hash function, kept uninterpreted
  and passed to every operation that hashes. It is deterministic because it is a
  function. It is never assumed injective, except in the one lemma that needs it.
- `models.dfy` (`Models`): the `Store` row and `NewStore`, which is `Store.__init__`.
- `table.dfy` (`StoreTable`): the table as a map from `id` to row. It holds
  the table invariant (each row sits under its own id and its fingerprints are
  up to date, and `id_hashed` is unique) and the lookup by fingerprint with
  the three outcomes of `scalar_one_or_none()`.
- `lifecycle.dfy` (`Lifecycle`): each route and the broker callback as a pure
  transition. It maps the committed table before the request to the committed
  table after it, the response, and the embedding job submitted on the way.
- `properties.dfy` (`LifecycleProperties`): lemmas. Every transition keeps
  the invariant. Completions are idempotent and last-write-wins. Updates are
  idempotent on unchanged content. A completion that comes after a delete
  finds nothing. The job a create submits leads its completion back to the
  created row. The lifecycle as a whole (`Lifecycle.Apply` for one event,
  `Lifecycle.Run` for a sequence handled in order) carries the invariant by
  induction.
- `routes.dfy` (`Routes`): the class `StoreService`, whose methods do the
  routes' steps one by one on a `table` field. Each state-changing method is
  proved to reach the state its `Lifecycle` function describes and to keep
  the invariant.

Collaborators become inputs. The embedding service's answer to
`CreateProduct` is an `EmbeddingReply`: either a response whose status is or
is not `STATUS_FAILED`, or a gRPC error. `__create_embedding` raises exactly
when the status is `STATUS_FAILED` or the call fails (`Lifecycle.Raises`).
The broker payload arrives already decoded as a `BrokerMessage`. The caller's
identity, which the route takes from the token's `sub` claim, is a plain
`storeId` parameter.

The database's unique constraint on `id_hashed` is part of the model: a create
whose fingerprint is already in the table fails at commit (`IntegrityError`)
and changes nothing. Because of this the invariant holds without assuming that
the hash is injective.

What the code keeps, and what it does not:
- A row has no `version` field. Its only embedding state is the boolean
  `embedded` and the index path. Nothing rejects a stale completion: the last
  completion applied wins (`CompletionLastWriteWins`).
- An update of the content leaves `embedded` and the old index path as they
  were. It does not reset them.
- Create commits before it submits the job. A failed submission reports an
  error, but the new row stays, unembedded, with no failure marker.
- Update submits before it commits. A failed submission leaves the table
  unchanged.
- There is no per-identity serialisation. Operations are modelled as atomic
  steps.

## Model

| member | source | states |
|---|---|---|
| `Models.NewStore` | src/python/datalakesvc/app/store/models.py:22-29 | A missing or empty id is rejected (IdRequired), and a missing products value is rejected. Otherwise the row has the given id, kind and products, `id_hashed` = hash(id), `products_hashed` = hash(products), and it is not embedded and has no index path. |
| `StoreTable.SelectByFingerprint` | src/python/datalakesvc/app/store/routes.py:163-164 | The result is no row exactly when no row has that `id_hashed`. One row means that row has it and no other row does. Many rows exactly when two distinct rows share it. |
| `StoreTable.UniqueFingerprintsNeverMany` | src/python/datalakesvc/app/store/models.py:13 | While `id_hashed` is unique, a lookup by fingerprint never returns many rows. |
| `Lifecycle.Raises` | src/python/datalakesvc/app/store/routes.py:45-57 | The submission raises exactly when the reply's status is STATUS_FAILED or the gRPC call itself fails. Any other status lets the route go on. |
| `Lifecycle.Create` | src/python/datalakesvc/app/store/routes.py:84-109 | A known id gives AlreadyExists and leaves the table unchanged. An empty id is rejected by the constructor. A fingerprint already in the table fails the commit and changes nothing. Otherwise exactly one row is added (others untouched) with the given products, fresh fingerprints and not embedded. A job (hash(id), products) is submitted only after that commit. A failed submission reports EmbeddingFailed and keeps the row. |
| `Lifecycle.Update` | src/python/datalakesvc/app/store/routes.py:111-133 | An absent id gives NotFound. If hash(new products) equals the stored `products_hashed`, the result is NotModified with no job and no change. Otherwise the job (id_hashed, products) is submitted. On failure the table is unchanged. On success only `products` and `products_hashed` of that row change, and `embedded` and the index path keep their old values. |
| `Lifecycle.Delete` | src/python/datalakesvc/app/store/routes.py:135-147 | An absent id gives NotFound with no change. Otherwise the row is returned, exactly that key is removed, and every other row is unchanged. |
| `Lifecycle.FindByFingerprint` | src/python/datalakesvc/app/store/routes.py:160-164 | A message without `hashed_store_id` gives the query `id_hashed IS NULL`, which matches no row because the column is not nullable. Otherwise the result is no row exactly when no row carries the fingerprint. One row means that row carries it and no other does. Many rows exactly when two distinct rows carry it. |
| `Lifecycle.Complete` | src/python/datalakesvc/app/store/routes.py:149-180 | The handler never adds or removes a row. It leaves the table unchanged for undecodable bytes, malformed JSON, a non-object, an unknown or missing fingerprint, and several matches, which it reports exactly when two distinct rows carry the fingerprint. A decoded message whose fingerprint exactly one row carries is always applied, and then only `embedded` = true and the index path of that row change. |
| `LifecycleProperties.CreatePreservesInvariant` | src/python/datalakesvc/app/store/routes.py:92-104 | Create keeps the table invariant: rows keyed by id, fingerprints up to date, `id_hashed` unique. |
| `LifecycleProperties.UpdatePreservesInvariant` | src/python/datalakesvc/app/store/routes.py:127-131 | Update keeps the invariant. In particular `products_hashed` = hash(products) still holds after a successful update. |
| `LifecycleProperties.DeletePreservesInvariant` | src/python/datalakesvc/app/store/routes.py:145-146 | Delete keeps the invariant. |
| `LifecycleProperties.CompletePreservesInvariant` | src/python/datalakesvc/app/store/routes.py:169-173 | The completion handler keeps the invariant. |
| `LifecycleProperties.InvariantRulesOutMultipleMatches` | src/python/datalakesvc/app/store/routes.py:176-177 | While the invariant holds, the handler never reaches its MultipleResultsFound branch. |
| `LifecycleProperties.CompleteKeepsFingerprints` | src/python/datalakesvc/app/store/routes.py:169-170 | The handler never reassigns `id_hashed`. |
| `LifecycleProperties.CompleteIdempotent` | src/python/datalakesvc/app/store/routes.py:155-180 | Handling the same message twice gives the same table and outcome as handling it once. |
| `LifecycleProperties.CompletionLastWriteWins` | src/python/datalakesvc/app/store/routes.py:163-173 | Two completions for one fingerprint end in the state the second alone gives. The later path wins and nothing is rejected as stale. |
| `LifecycleProperties.UpdateWithStoredProductsNotModified` | src/python/datalakesvc/app/store/routes.py:123-126 | Under the invariant, updating a store with the products it already holds returns NotModified, submits nothing and changes nothing. |
| `LifecycleProperties.UpdateTwiceNotModified` | src/python/datalakesvc/app/store/routes.py:123-128 | Repeating a successful update with the same products returns NotModified and changes nothing. |
| `LifecycleProperties.DeleteThenCompleteFindsNothing` | src/python/datalakesvc/app/store/routes.py:163-167 | After a store is deleted, a completion carrying its fingerprint finds no row, changes nothing and does not bring the store back. |
| `LifecycleProperties.CreateThenCompleteEmbeds` | src/python/datalakesvc/app/store/routes.py:98-108 | When a create committed a row, a completion carrying the submitted job's fingerprint marks exactly that row embedded, with the message's path. This holds whether or not the submission failed. |
| `LifecycleProperties.CreateCommitsFreshStore` | src/python/datalakesvc/app/store/routes.py:98-109 | Take a new non-empty id whose hash no stored id shares. Create then always leaves that row committed, unembedded, with the given products, and reports success or EmbeddingFailed. |
| `LifecycleProperties.ApplyPreservesInvariant` | src/python/datalakesvc/app/store/routes.py:59-180 | Every request and every broker message keeps the table invariant. |
| `LifecycleProperties.RunPreservesInvariant` | src/python/datalakesvc/app/store/models.py:12-29 | In every state reached by any sequence of requests and messages, each row is keyed by its id, `id_hashed` = hash(id), `products_hashed` = hash(products), and `id_hashed` is unique. |
| `LifecycleProperties.MessagesNeverCreate` | src/python/datalakesvc/app/store/routes.py:162-173 | Any sequence of broker messages leaves the set of stored ids unchanged. |
| `LifecycleProperties.StoresComeFromCreate` | src/python/datalakesvc/app/store/routes.py:98-104 | A store present after any sequence of events was there at the start or was named by a create request in that sequence. Updates and completions never bring one into existence. |
| `Routes.StoreService.constructor` | src/python/datalakesvc/app/store/routes.py:27-31 | The service starts on a table that satisfies the invariant. |
| `Routes.StoreService.CheckStoreExists` | src/python/datalakesvc/app/store/routes.py:59-70 | The result is true exactly when a row with that id exists. The method modifies nothing. |
| `Routes.StoreService.ReadStore` | src/python/datalakesvc/app/store/routes.py:72-82 | The stored row for the id, or NotFound. The method modifies nothing. |
| `Routes.StoreService.CreateStore` | src/python/datalakesvc/app/store/routes.py:84-109 | Runs the create steps (lookup, constructor, commit with unique check, then submission). It ends in the state, response and job `Lifecycle.Create` gives and keeps the invariant. |
| `Routes.StoreService.UpdateStore` | src/python/datalakesvc/app/store/routes.py:111-133 | Runs the update steps (lookup, hash comparison, session edit, submission, commit). It ends where `Lifecycle.Update` says and keeps the invariant. |
| `Routes.StoreService.DeleteStore` | src/python/datalakesvc/app/store/routes.py:135-147 | Ends where `Lifecycle.Delete` says and keeps the invariant. |
| `Routes.StoreService.HandleBrokerMessage` | src/python/datalakesvc/app/store/routes.py:149-180 | Runs the handler's steps (decode, lookup by fingerprint, set path and flag, commit). It ends where `Lifecycle.Complete` says and keeps the invariant. |

## Left out

- SHA-256 and UTF-8 encoding: the model keeps only a deterministic function into 64-character hex strings.
- JSON parsing: a message is given already decoded. A `hashed_store_id` or `path` value that is neither a string nor absent (a number, a list) is not modelled.
- Token verification in `get_store_identity`: the caller's id is a parameter.
- The gRPC channel and `CreateProduct` call, and the NATS subscription: the reply and the message are inputs. The embedding service itself (model loading, indexing, search, publishing) is not part of this model.
- Concurrency: the asyncio subscription task and concurrent requests. Every operation is one atomic step, and the races between requests and completions are not modelled.
- `updated_at`: a clock value set by the database. It is not modelled.
- The width of the `id` column (70 characters): whether the database enforces it depends on the backend. It is not modelled.
- Error detail strings and logging. Of note, update's 404 detail interpolates Python's built-in `id`, not the store id.
- The `StoreOut` response: the routes return `StoreOut.model_validate(row)`, which carries only `products`. The model returns the whole row and does not apply that projection.
- Router setup (`__setup`, `get_router`), the session factory and `db.refresh`: plumbing with no effect on the table.
