/** SQL's three-valued logic, and the test by which each engine's bulk update
    decides whether an item changes a stored row. */
module Sql {
  import opened Feed

  datatype Truth = Yes | No | Unknown

  function Not(a: Truth): Truth {
    match a
    case Yes => No
    case No => Yes
    case Unknown => Unknown
  }

  function And(a: Truth, b: Truth): Truth {
    if a.No? || b.No? then No else if a.Yes? && b.Yes? then Yes else Unknown
  }

  function Or(a: Truth, b: Truth): Truth {
    if a.Yes? || b.Yes? then Yes else if a.No? && b.No? then No else Unknown
  }

  function Holds(b: bool): Truth {
    if b then Yes else No
  }

  /** `a = b`: unknown as soon as one side is null. */
  function Equals<T(==)>(a: Option<T>, b: Option<T>): Truth {
    if a.Some? && b.Some? then Holds(a.value == b.value) else Unknown
  }

  /** `a IS DISTINCT FROM b` */
  predicate IsDistinct<T(==)>(a: Option<T>, b: Option<T>) {
    a != b
  }

  /** `a <=> b` */
  predicate NullSafeEquals<T(==)>(a: Option<T>, b: Option<T>) {
    a == b
  }

  function KeyOf(key: Collation, o: Option<string>): Option<real> {
    match o
    case None => None
    case Some(s) => Some(key(s))
  }

  /** Postgres compares the citext column with the text item as exact text. */
  predicate PostgresChanged(r: Row, p: Item) {
    || IsDistinct(r.imageUrl, p.imageUrl)
    || IsDistinct(Some(r.feedUrl), p.feedUrl)
    || IsDistinct(r.actualUrl, p.actualUrl)
    || IsDistinct(Some(r.publishDate), p.publishDate)
  }

  /** MariaDB negates a conjunction of null-safe comparisons of TEXT columns. */
  predicate MariaChanged(key: Collation, r: Row, p: Item) {
    !(&& NullSafeEquals(KeyOf(key, r.imageUrl), KeyOf(key, p.imageUrl))
      && NullSafeEquals(Some(key(r.feedUrl)), KeyOf(key, p.feedUrl))
      && NullSafeEquals(KeyOf(key, r.actualUrl), KeyOf(key, p.actualUrl))
      && NullSafeEquals(Some(key(r.publishDate)), KeyOf(key, p.publishDate)))
  }

  /** `a = b OR (a IS NULL AND b IS NULL)` */
  function MssqlSame(key: Collation, a: Option<string>, b: Option<string>): Truth {
    Or(Equals(KeyOf(key, a), KeyOf(key, b)), And(Holds(a.None?), Holds(b.None?)))
  }

  /** MSSQL negates a conjunction built from plain equality. */
  function MssqlChangedTruth(key: Collation, r: Row, p: Item): Truth {
    Not(And(And(And(
      MssqlSame(key, r.imageUrl, p.imageUrl),
      Equals(Some(key(r.feedUrl)), KeyOf(key, p.feedUrl))),
      MssqlSame(key, r.actualUrl, p.actualUrl)),
      Equals(Some(r.publishDate), p.publishDate)))
  }

  /** A WHERE clause keeps a row only when its condition is true, not unknown. */
  predicate MssqlChanged(key: Collation, r: Row, p: Item) {
    MssqlChangedTruth(key, r, p) == Yes
  }

  /** Both sides hold a value and the values are not equal under the collation. */
  predicate Differ(key: Collation, a: Option<string>, b: Option<string>) {
    a.Some? && b.Some? && key(a.value) != key(b.value)
  }

  /** MSSQL sees a change exactly when some column holds two different values;
      a nullable column that moves between NULL and a value is not seen. */
  lemma {:induction false} MssqlSeesOnlyValueChanges(key: Collation, r: Row, p: Item)
    ensures MssqlChanged(key, r, p) <==>
            || Differ(key, Some(r.feedUrl), p.feedUrl)
            || (p.publishDate.Some? && p.publishDate.value != r.publishDate)
            || Differ(key, r.imageUrl, p.imageUrl)
            || Differ(key, r.actualUrl, p.actualUrl)
  {
  }

  /** Every column is equal under the collation. */
  predicate LooksStored(key: Collation, r: Row, p: Item) {
    && KeyOf(key, r.imageUrl) == KeyOf(key, p.imageUrl)
    && Some(key(r.feedUrl)) == KeyOf(key, p.feedUrl)
    && KeyOf(key, r.actualUrl) == KeyOf(key, p.actualUrl)
    && Some(key(r.publishDate)) == KeyOf(key, p.publishDate)
  }

  /** Every column is stored exactly as sent. */
  predicate IsStored(r: Row, p: Item) {
    && r.imageUrl == p.imageUrl
    && Some(r.feedUrl) == p.feedUrl
    && r.actualUrl == p.actualUrl
    && Some(r.publishDate) == p.publishDate
  }

  /** A nullable column moves between NULL and a value. */
  predicate Moves(a: Option<string>, b: Option<string>) {
    a.Some? != b.Some?
  }

  /** MariaDB sees a change that MSSQL does not exactly when no column holds two
      different values and a nullable one moves between NULL and a value. */
  lemma {:induction false} OnlyMariaSees(key: Collation, r: Row, p: Item)
    requires p.feedUrl.Some? && p.publishDate.Some? && (key(r.publishDate) == key(p.publishDate.value) ==> r.publishDate == p.publishDate.value)
    ensures MssqlChanged(key, r, p) ==> MariaChanged(key, r, p)
    ensures MariaChanged(key, r, p) && !MssqlChanged(key, r, p) <==>
      && (Moves(r.imageUrl, p.imageUrl) || Moves(r.actualUrl, p.actualUrl))
      && !Differ(key, Some(r.feedUrl), p.feedUrl) && r.publishDate == p.publishDate.value
      && !Differ(key, r.imageUrl, p.imageUrl) && !Differ(key, r.actualUrl, p.actualUrl)
  {
  }
}
