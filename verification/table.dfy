/**
 * The persisted `stores` table, seen as a map from the primary key `id` to
 * the row, with the constraints the schema and the routes keep.
 */
module StoreTable {
  import opened Fingerprint
  import opened Models

  type Table = map<string, Store>

  /** Every row is stored under its own id and its fingerprints are up to date. */
  predicate RowsConsistent(hash: Hasher, t: Table) {
    forall k | k in t :: t[k].id == k && Consistent(hash, t[k])
  }

  /** The `unique=True` constraint on `id_hashed`. */
  predicate UniqueFingerprints(t: Table) {
    forall a, b | a in t && b in t && t[a].idHashed == t[b].idHashed :: a == b
  }

  /** The table invariant every operation preserves. */
  predicate TableInvariant(hash: Hasher, t: Table) {
    RowsConsistent(hash, t) && UniqueFingerprints(t)
  }

  /** The outcome of `scalar_one_or_none()`: no row, one row, or MultipleResultsFound. */
  datatype Lookup = NoRow | OneRow(id: string) | ManyRows

  /** `select(Store).where(Store.id_hashed == fp)` followed by `scalar_one_or_none()`. */
  function SelectByFingerprint(t: Table, fp: string): (r: Lookup)
    ensures r.NoRow? <==> forall k | k in t :: t[k].idHashed != fp
    ensures r.OneRow? ==> r.id in t && t[r.id].idHashed == fp
    ensures r.OneRow? ==> forall k | k in t && t[k].idHashed == fp :: k == r.id
    ensures r.ManyRows? <==> exists a, b | a in t && b in t :: a != b && t[a].idHashed == fp && t[b].idHashed == fp
  {
    var ids := set k | k in t && t[k].idHashed == fp;
    assert forall k | k in t && t[k].idHashed == fp :: k in ids;
    if ids == {} then NoRow
    else if exists a, b | a in ids && b in ids :: a != b then ManyRows
    else
      var k :| k in ids;
      OneRow(k)
  }

  /** Under the unique constraint a lookup by fingerprint never finds several rows. */
  lemma UniqueFingerprintsNeverMany(t: Table, fp: string)
    requires UniqueFingerprints(t)
    ensures SelectByFingerprint(t, fp) != ManyRows
  {
  }
}
