/** Live tables: rows addressed by primary key, with generated columns. */
module Tables {
  import opened Json

  /** A row, a row image or a key: column name to value. */
  type Row = map<string, Json>

  /**
   * What `_meta` and `_validate_image` read from the catalog for one table.
   * `always` are the GENERATED ALWAYS AS IDENTITY columns, `derived` the
   * generated ones, `required` the NOT NULL columns without a default.
   */
  datatype Schema = Schema(
    pk: set<string>,
    base: set<string>,
    always: set<string>,
    derived: set<string>,
    required: set<string>,
    gen: (string, Row) -> Json)
  {
    ghost predicate Valid() {
      pk != {} && pk <= base && always <= base && required <= base && base !! derived
    }

    function Columns(): set<string> { base + derived }

    /** The columns an UPDATE may assign (`_setcols`). */
    function Settable(): set<string> { base - always }

    /** The columns a row stores by itself, absent ones as NULL. */
    function Stored(img: Row): Row {
      map c | c in base :: Get(img, c)
    }

    /** The row PostgreSQL ends up with: stored columns plus recomputed generated ones. */
    function Fill(img: Row): Row {
      Stored(img) + map c | c in derived :: gen(c, Stored(img))
    }

    /** `_extract_pk`. */
    function Key(img: Row): Row {
      map c | c in pk :: Get(img, c)
    }

    ghost predicate ValidRow(row: Row) {
      row == Fill(row) && forall c | c in pk :: Get(row, c) != Null
    }
  }

  function Get(img: Row, c: string): Json {
    if c in img then img[c] else Null
  }

  /** `row @> img` at the top level of a row. */
  predicate Holds(row: Row, img: Row) {
    forall c | c in img :: c in row && Contains(row[c], img[c])
  }

  lemma HoldsAgreeing(row: Row, img: Row)
    requires forall c | c in img :: c in row && row[c] == img[c]
    ensures Holds(row, img)
  {
    forall c | c in img { ContainsItself(img[c]); }
  }

  datatype RowId = RowId(table: string, key: Row)
  type Db = map<RowId, Row>
  type Catalog = map<string, Schema>

  ghost predicate ValidCatalog(cat: Catalog) {
    forall t | t in cat :: cat[t].Valid()
  }

  ghost predicate ValidDb(cat: Catalog, db: Db) {
    ValidCatalog(cat) &&
    forall id | id in db ::
      id.table in cat && cat[id.table].ValidRow(db[id]) && cat[id.table].Key(db[id]) == id.key
  }

  lemma PutKeepsValid(cat: Catalog, db: Db, id: RowId, row: Row)
    requires ValidDb(cat, db)
    requires id.table in cat && cat[id.table].ValidRow(row) && cat[id.table].Key(row) == id.key
    ensures ValidDb(cat, db[id := row])
  {
  }

  /** Two rows with the same stored columns are the same row. */
  lemma SameStoredSameRow(s: Schema, a: Row, b: Row)
    requires s.Valid()
    requires forall c | c in s.base :: Get(a, c) == Get(b, c)
    ensures s.Fill(a) == s.Fill(b) && s.Key(a) == s.Key(b)
  {
    assert s.Stored(a) == s.Stored(b);
  }

  lemma FillKeepsStored(s: Schema, img: Row)
    requires s.Valid()
    ensures s.Fill(s.Fill(img)) == s.Fill(img) && s.Key(s.Fill(img)) == s.Key(img)
    ensures forall c | c in s.base :: s.Fill(img)[c] == Get(img, c)
  {
    forall c | c in s.base ensures Get(s.Fill(img), c) == Get(img, c) {}
    SameStoredSameRow(s, s.Fill(img), img);
  }

  lemma KeyOfKey(s: Schema, img: Row)
    ensures s.Key(s.Key(img)) == s.Key(img)
  {
  }

  lemma SameValues(a: Row, b: Row)
    requires a.Keys == b.Keys && forall k | k in a :: a[k] == b[k]
    ensures a == b
  {
  }

  lemma DifferentValues(a: Row, b: Row)
    requires a.Keys == b.Keys && a != b
    ensures exists k :: k in a && a[k] != b[k]
  {
    if !(exists k :: k in a && a[k] != b[k]) { SameValues(a, b); }
  }
}
