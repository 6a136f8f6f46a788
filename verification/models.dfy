/** The `Store` record of the `stores` table and its constructor. */
module Models {
  import opened Wrappers
  import opened Fingerprint

  /**
   * One row of the `stores` table. `embeddedIndexPath` is the column spelled
   * `embbded_index_path`; `updated_at` is not modelled.
   */
  datatype Store = Store(
    id: string,
    idHashed: Digest,
    kind: Option<string>,
    products: string,
    productsHashed: Digest,
    embedded: bool,
    embeddedIndexPath: Option<string>)

  /** Why `Store.__init__` raises: a missing or empty id (ValueError), or no products to hash. */
  datatype ConstructError = IdRequired | ProductsMissing

  /** The derived columns agree with the columns they are computed from, and the key is not empty. */
  predicate Consistent(hash: Hasher, s: Store) {
    && s.id != ""
    && s.idHashed == hash(s.id)
    && s.productsHashed == hash(s.products)
  }

  /** The column defaults of a freshly inserted row: not embedded, no index path. */
  predicate NotEmbedded(s: Store) {
    !s.embedded && s.embeddedIndexPath.None?
  }

  /**
   * `Store(id, kind, products)`: rejects a missing or empty id, fails when there
   * are no products to hash, and otherwise derives both fingerprints. `embedded`
   * is the column default `False`, which the row holds once it is committed.
   */
  function NewStore(hash: Hasher, id: Option<string>, kind: Option<string>, products: Option<string>)
    : (r: Result<Store, ConstructError>)
    ensures r == Err(IdRequired) <==> id.None? || id == Some("")
    ensures r == Err(ProductsMissing) <==> id.Some? && id.value != "" && products.None?
    ensures r.Ok? ==>
      && Some(r.value.id) == id
      && r.value.kind == kind
      && Some(r.value.products) == products
      && Consistent(hash, r.value)
      && NotEmbedded(r.value)
  {
    if id.None? || id.value == "" then Err(IdRequired)
    else if products.None? then Err(ProductsMissing)
    else Ok(Store(id.value, hash(id.value), kind, products.value, hash(products.value), false, None))
  }
}
