/** What one call of `cud_bulk_json_newsfeed` does to the table and answers, on
    each of the three engines, statement by statement. */
module Bulk {
  import opened Feed
  import opened Sql

  datatype Engine = Postgres | MariaDb | MsSql

  /** An engine with its title and column collation and its date cast, which
      gives the stored form of a date text or fails on it. */
  datatype Dialect = Dialect(engine: Engine, key: Collation, cast: string -> Option<string>)

  /** A call either commits a table and a list of outcomes, or fails as a whole. */
  datatype Answer = Done(rows: seq<Row>, outcomes: seq<Outcome>) | Failed

  // ---------------------------------------------------------------- titles

  /** Equality of a column or parameter with a text. Postgres joins a citext column
      with text items, which compares exact text; the others compare under the collation. */
  predicate SameText(d: Dialect, a: string, b: string) {
    if d.engine.Postgres? then a == b else d.key(a) == d.key(b)
  }

  /** The join condition between an item and a row. A null title joins nothing. */
  predicate Names(d: Dialect, p: Item, r: Row) {
    p.title.Some? && SameText(d, p.title.value, r.title)
  }

  predicate Meets(d: Dialect, p: Item, q: Item) {
    p.title.Some? && q.title.Some? && SameText(d, p.title.value, q.title.value)
  }

  /** The test of the unique key on titles, and of MariaDB's and MSSQL's
      NOT EXISTS: equality under the collation on every engine. */
  predicate Clashes(d: Dialect, p: Item, r: Row) {
    p.title.Some? && d.key(p.title.value) == d.key(r.title)
  }

  predicate Rivals(d: Dialect, p: Item, q: Item) {
    p.title.Some? && q.title.Some? && d.key(p.title.value) == d.key(q.title.value)
  }

  predicate Named(d: Dialect, rows: seq<Row>, p: Item) {
    exists k :: 0 <= k < |rows| && Names(d, p, rows[k])
  }

  predicate Fresh(d: Dialect, rows: seq<Row>, p: Item) {
    forall k :: 0 <= k < |rows| ==> !Clashes(d, p, rows[k])
  }

  /** No two rows have the same title under the collation: the primary key. */
  predicate Keyed(key: Collation, rows: seq<Row>) {
    forall i, j :: 0 <= i < j < |rows| ==> key(rows[i].title) != key(rows[j].title)
  }

  /** No two rows have the very same title. */
  predicate Distinct(rows: seq<Row>) {
    forall i, j :: 0 <= i < j < |rows| ==> rows[i].title != rows[j].title
  }

  /** No two items can join one row. */
  predicate Apart(d: Dialect, ps: seq<Item>) {
    forall i, j :: 0 <= i < j < |ps| ==> !Meets(d, ps[i], ps[j])
  }

  /** No two items have the same title under the collation. */
  predicate NoRivals(d: Dialect, ps: seq<Item>) {
    forall i, j :: 0 <= i < j < |ps| ==> !Rivals(d, ps[i], ps[j])
  }

  // --------------------------------------------------------------- parsing

  function Cleaned(p: Item): Item {
    p.(imageUrl := NullIfBlank(p.imageUrl), actualUrl := NullIfBlank(p.actualUrl))
  }

  /** The item with its date cast; a date that cannot be cast becomes null. */
  function Dated(d: Dialect, p: Item): Item {
    p.(publishDate := if p.publishDate.Some? then d.cast(p.publishDate.value) else None)
  }

  predicate Castable(d: Dialect, p: Item) {
    p.publishDate.Some? ==> d.cast(p.publishDate.value).Some?
  }

  predicate Present(o: Option<string>) {
    o.Some? && Trim(o.value) != ""
  }

  /** The filter with which MariaDB and MSSQL read the payload in every mode. */
  predicate Kept(p: Item) {
    Present(p.title) && Present(p.feedUrl) && Present(p.publishDate)
  }

  function KeptOf(items: seq<Item>): (ps: seq<Item>)
    ensures forall p :: p in ps <==> p in items && Kept(p)
    ensures |ps| <= |items|
  {
    if items == [] then []
    else (if Kept(items[0]) then [items[0]] else []) + KeptOf(items[1..])
  }

  predicate Within(o: Option<string>, n: nat) {
    o.Some? ==> |o.value| <= n
  }

  /** The column widths of MSSQL's `@parsed` table variable. */
  predicate Fits(p: Item) {
    Within(p.title, 255) && Within(p.imageUrl, 255) && Within(p.feedUrl, 768) && Within(p.actualUrl, 255)
  }

  predicate AllCastable(d: Dialect, ps: seq<Item>) {
    forall p :: p in ps ==> Castable(d, p)
  }

  predicate AllFit(ps: seq<Item>) {
    forall p :: p in ps ==> Fits(Cleaned(p))
  }

  /** The items as the engine's parsing step leaves them, or `None` when that
      step raises an error. Postgres casts dates except in a delete. */
  function Parsed(d: Dialect, mode: Mode, items: seq<Item>): Option<seq<Item>> {
    match d.engine
    case Postgres =>
      if mode.Delete? then Some(items)
      else if AllCastable(d, items) then Some(DatedAll(d, items))
      else None
    case MariaDb => Some(CleanedAll(KeptOf(items)))
    case MsSql =>
      if AllFit(KeptOf(items)) then Some(DatedAll(d, KeptOf(items)))
      else None
  }

  function CleanedAll(items: seq<Item>): (ps: seq<Item>)
    ensures |ps| == |items| && forall k :: 0 <= k < |items| ==> ps[k] == Cleaned(items[k])
  {
    if items == [] then [] else [Cleaned(items[0])] + CleanedAll(items[1..])
  }

  function DatedAll(d: Dialect, items: seq<Item>): (ps: seq<Item>)
    ensures |ps| == |items| && forall k :: 0 <= k < |items| ==> ps[k] == Dated(d, Cleaned(items[k]))
  {
    if items == [] then [] else [Dated(d, Cleaned(items[0]))] + DatedAll(d, items[1..])
  }

  // ---------------------------------------------------------------- insert

  /** The item can be stored: no NOT NULL column is missing. */
  predicate Storable(p: Item) {
    p.title.Some? && p.feedUrl.Some? && p.publishDate.Some?
  }

  function NewRow(p: Item, now: int): Row
    requires Storable(p)
  {
    Row(p.title.value, p.imageUrl, p.feedUrl.value, p.actualUrl, p.publishDate.value, now, now)
  }

  function NewRows(ps: seq<Item>, now: int): (rows: seq<Row>)
    requires forall p :: p in ps ==> Storable(p)
    ensures |rows| == |ps|
    ensures forall k :: 0 <= k < |ps| ==> rows[k] == NewRow(ps[k], now)
  {
    seq(|ps|, k requires 0 <= k < |ps| => NewRow(ps[k], now))
  }

  /** The items that become rows. All engines ask that no stored row has the
      title; ON CONFLICT DO NOTHING also skips a second item of the statement. */
  function Admitted(d: Dialect, rows: seq<Row>, ps: seq<Item>): seq<Item> {
    if ps == [] then [] else
    var n := |ps| - 1;
    Admitted(d, rows, ps[..n]) + if Admits(d, rows, ps[..n], ps[n]) then [ps[n]] else []
  }

  predicate Admits(d: Dialect, rows: seq<Row>, earlier: seq<Item>, p: Item) {
    && Fresh(d, rows, p)
    && (d.engine.Postgres? ==> forall q :: q in earlier ==> !Rivals(d, q, p))
  }

  predicate Met(d: Dialect, ps: seq<Item>, p: Item) {
    exists q :: q in ps && Meets(d, q, p)
  }

  /** The insert statement raises an error: on Postgres when any item lacks a
      value, on MSSQL when a new row does or two new rows share a key. No item
      that passes MariaDB's filter lacks a value. */
  predicate InsertFails(d: Dialect, rows: seq<Row>, ps: seq<Item>) {
    var admitted := Admitted(d, rows, ps);
    || (exists p :: p in (if d.engine.Postgres? then ps else admitted) && !Storable(p))
    || (d.engine.MsSql? && !NoRivals(d, admitted))
  }

  // ---------------------------------------------------------------- update

  predicate Changed(d: Dialect, r: Row, p: Item) {
    match d.engine
    case Postgres => PostgresChanged(r, p)
    case MariaDb => MariaChanged(d.key, r, p)
    case MsSql => MssqlChanged(d.key, r, p)
  }

  predicate Hits(d: Dialect, p: Item, r: Row) {
    Names(d, p, r) && Changed(d, r, p)
  }

  /** The item that rewrites row `r`, if any. */
  function HitOn(d: Dialect, r: Row, ps: seq<Item>): (p: Option<Item>)
    ensures p.Some? ==> p.value in ps && Hits(d, p.value, r)
    ensures p.None? ==> forall q :: q in ps ==> !Hits(d, q, r)
  {
    if ps == [] then None
    else if Hits(d, ps[0], r) then Some(ps[0])
    else HitOn(d, r, ps[1..])
  }

  predicate Writable(p: Item) {
    p.feedUrl.Some? && p.publishDate.Some?
  }

  predicate UpdateFails(d: Dialect, rows: seq<Row>, ps: seq<Item>) {
    exists k :: 0 <= k < |rows| && HitOn(d, rows[k], ps).Some? && !Writable(HitOn(d, rows[k], ps).value)
  }

  function Overwrite(r: Row, p: Item, now: int): Row
    requires Writable(p)
  {
    r.(imageUrl := p.imageUrl, feedUrl := p.feedUrl.value, actualUrl := p.actualUrl,
       publishDate := p.publishDate.value, modified := now)
  }

  /** The row after the update statement; a hit that is not writable fails the
      statement before this matters. */
  function Touched(d: Dialect, r: Row, ps: seq<Item>, now: int): Row {
    var p := HitOn(d, r, ps);
    if p.Some? && Writable(p.value) then Overwrite(r, p.value, now) else r
  }

  function UpdateRows(d: Dialect, rows: seq<Row>, ps: seq<Item>, now: int): seq<Row> {
    seq(|rows|, k requires 0 <= k < |rows| => Touched(d, rows[k], ps, now))
  }

  // ---------------------------------------------------------------- delete

  predicate Doomed(d: Dialect, r: Row, ps: seq<Item>) {
    exists p :: p in ps && Names(d, p, r)
  }

  function DeleteRows(d: Dialect, rows: seq<Row>, ps: seq<Item>): (kept: seq<Row>)
    ensures forall r :: r in kept <==> r in rows && !Doomed(d, r, ps)
    ensures |kept| <= |rows|
  {
    if rows == [] then []
    else (if Doomed(d, rows[0], ps) then [] else [rows[0]]) + DeleteRows(d, rows[1..], ps)
  }

  // -------------------------------------------------------------- outcomes

  /** Postgres and MSSQL join each item with the titles that RETURNING or OUTPUT gave back. */
  function Returned(d: Dialect, mode: Mode, rows: seq<Row>, ps: seq<Item>, p: Item): Outcome {
    match mode
    case Insert => if Met(d, Admitted(d, rows, ps), p) then Inserted else SkippedExists
    case Update =>
      if exists k :: 0 <= k < |rows| && Names(d, p, rows[k]) && HitOn(d, rows[k], ps).Some? then Updated
      else if Named(d, rows, p) then SkippedExists else SkippedNotFound
    case Delete => if Named(d, rows, p) then Deleted else SkippedNotFound
  }

  /** MariaDB joins each item with the table before writing: one status for
      each joined row, or one for an item that joins none. */
  function Predicted(d: Dialect, mode: Mode, rows: seq<Row>, p: Item): seq<Outcome> {
    var found := Joined(d, mode, rows, p);
    if found == [] then [if mode.Insert? then Inserted else SkippedNotFound] else found
  }

  function Joined(d: Dialect, mode: Mode, rows: seq<Row>, p: Item): seq<Outcome> {
    if rows == [] then []
    else (if Names(d, p, rows[0]) then [OnRow(d, mode, rows[0], p)] else []) + Joined(d, mode, rows[1..], p)
  }

  function OnRow(d: Dialect, mode: Mode, r: Row, p: Item): Outcome {
    match mode
    case Insert => SkippedExists
    case Update => if Changed(d, r, p) then Updated else SkippedExists
    case Delete => Deleted
  }

  function PredictedAll(d: Dialect, mode: Mode, rows: seq<Row>, ps: seq<Item>): seq<Outcome> {
    if ps == [] then [] else Predicted(d, mode, rows, ps[0]) + PredictedAll(d, mode, rows, ps[1..])
  }

  function Outcomes(d: Dialect, mode: Mode, rows: seq<Row>, ps: seq<Item>): seq<Outcome> {
    if d.engine.MariaDb? then PredictedAll(d, mode, rows, ps)
    else seq(|ps|, k requires 0 <= k < |ps| => Returned(d, mode, rows, ps, ps[k]))
  }

  // -------------------------------------------------------------- the call

  predicate WriteFails(d: Dialect, mode: Mode, rows: seq<Row>, ps: seq<Item>) {
    match mode
    case Insert => InsertFails(d, rows, ps)
    case Update => UpdateFails(d, rows, ps)
    case Delete => false
  }

  function Written(d: Dialect, mode: Mode, rows: seq<Row>, ps: seq<Item>, now: int): seq<Row>
    requires !WriteFails(d, mode, rows, ps)
  {
    match mode
    case Insert =>
      AdmittedAreItems(d, rows, ps);
      rows + NewRows(Admitted(d, rows, ps), now)
    case Update => UpdateRows(d, rows, ps, now)
    case Delete => DeleteRows(d, rows, ps)
  }

  /** The write and the answer for items that have been parsed. */
  function Apply(d: Dialect, mode: Mode, rows: seq<Row>, ps: seq<Item>, now: int): Answer {
    if WriteFails(d, mode, rows, ps) then Failed
    else Done(Written(d, mode, rows, ps, now), Outcomes(d, mode, rows, ps))
  }

  /** One call of the bulk procedure. */
  function Exec(d: Dialect, mode: Mode, rows: seq<Row>, items: seq<Item>, now: int): Answer {
    var ps := Parsed(d, mode, items);
    if ps.None? then Failed else Apply(d, mode, rows, ps.value, now)
  }

  lemma {:induction false} AdmittedAreItems(d: Dialect, rows: seq<Row>, ps: seq<Item>)
    ensures forall p :: p in Admitted(d, rows, ps) ==> p in ps && Fresh(d, rows, p)
  {
    if ps != [] {
      AdmittedAreItems(d, rows, ps[..|ps| - 1]);
    }
  }
}
