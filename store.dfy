/**
 * The content-addressed `strings` table behind the endpoints: a row's id is
 * the SHA-256 digest of its value, `create_string` inserts a row unless its
 * id is taken, `get_string` and `delete_string` find the row by hashing the
 * path value, and the two listing endpoints scan the table through
 * `apply_filters_row`.
 */
module RecordStore {
  import opened Types
  import opened Text
  import opened Analyzer
  import opened Filters
  import opened NaturalLanguage

  /** A row of the `strings` table, with its stored properties decoded. */
  datatype Record = Record(id: String, value: String, properties: Properties, createdAt: String)

  /** The body of `GET /strings`. */
  datatype Listing = Listing(data: seq<Record>, count: nat, filtersApplied: FilterSet)

  /** The body of `GET /strings/filter-by-natural-language`. */
  datatype NlListing = NlListing(data: seq<Record>, count: nat, original: String, parsedFilters: FilterSet)

  /** The table, keyed by id. */
  type Table = map<String, Record>

  /** The payload `create_string` builds for `value`: its analysis, keyed by its digest. */
  function NewRecord(value: String, hash: String -> String, createdAt: String): Record {
    var props := Analyze(value, hash);
    Record(props.sha256Hash, value, props, createdAt)
  }

  /** Every row is the record `create_string` would build for its value, stored under its digest. */
  predicate WellFormed(t: Table, hash: String -> String) {
    forall id | id in t :: id == hash(t[id].value) && t[id] == NewRecord(t[id].value, hash, t[id].createdAt)
  }

  // ---------------- the table operations, as functions ----------------

  /** `get_string`: the row under the digest of `value`, or 404. */
  function Lookup(t: Table, hash: String -> String, value: String): Result<Record> {
    var id := hash(value);
    if id in t then Ok(t[id]) else Err(NotFound)
  }

  /** `create_string`: 409 when the digest is taken, otherwise the table with the new row. */
  function Insert(t: Table, hash: String -> String, value: String, createdAt: String): Result<Table> {
    var id := hash(value);
    if id in t then Err(Conflict) else Ok(t[id := NewRecord(value, hash, createdAt)])
  }

  /** `delete_string`: 404 when no row has the digest, otherwise the table without it. */
  function Remove(t: Table, hash: String -> String, value: String): Result<Table> {
    var id := hash(value);
    if id in t then Ok(t - {id}) else Err(NotFound)
  }

  /** A create succeeds exactly when no row has the value's digest; a failed create is a conflict. */
  lemma InsertConflict(t: Table, hash: String -> String, value: String, createdAt: String)
    ensures Insert(t, hash, value, createdAt).Err? <==> Lookup(t, hash, value).Ok?
    ensures Insert(t, hash, value, createdAt).Err? ==> Insert(t, hash, value, createdAt).error == Conflict
  {
  }

  /**
   * A successful create adds exactly the key `hash(value)`, and a following
   * get of the same value returns the new record.
   */
  lemma InsertThenLookup(t: Table, hash: String -> String, value: String, createdAt: String)
    requires Insert(t, hash, value, createdAt).Ok?
    ensures var t' := Insert(t, hash, value, createdAt).value;
      && t'.Keys == t.Keys + {hash(value)}
      && (forall id | id in t :: t'[id] == t[id])
      && Lookup(t', hash, value) == Ok(NewRecord(value, hash, createdAt))
  {
  }

  /**
   * A successful delete removes exactly the key `hash(value)`; after it, both
   * a get and a second delete of the same value report 404.
   */
  lemma RemoveThenLookup(t: Table, hash: String -> String, value: String)
    requires Remove(t, hash, value).Ok?
    ensures var t' := Remove(t, hash, value).value;
      && t'.Keys == t.Keys - {hash(value)}
      && (forall id | id in t' :: t'[id] == t[id])
      && Lookup(t', hash, value) == Err(NotFound)
      && Remove(t', hash, value) == Err(NotFound)
  {
  }

  /** Deleting a value right after creating it restores the table. */
  lemma InsertThenRemove(t: Table, hash: String -> String, value: String, createdAt: String)
    requires Insert(t, hash, value, createdAt).Ok?
    ensures Remove(Insert(t, hash, value, createdAt).value, hash, value) == Ok(t)
  {
    var id := hash(value);
    assert t[id := NewRecord(value, hash, createdAt)] - {id} == t;
  }

  /**
   * The table is addressed by digest only: two values with the same digest
   * reach the same row, so `get_string` of one may return the other's record.
   */
  lemma LookupByDigest(t: Table, hash: String -> String, v: String, w: String)
    requires hash(v) == hash(w)
    ensures Lookup(t, hash, v) == Lookup(t, hash, w)
    ensures Remove(t, hash, v) == Remove(t, hash, w)
  {
  }

  /** Creating and deleting keep every row the analysis of its value. */
  lemma OperationsKeepWellFormed(t: Table, hash: String -> String, value: String, createdAt: String)
    requires WellFormed(t, hash)
    ensures Insert(t, hash, value, createdAt).Ok? ==> WellFormed(Insert(t, hash, value, createdAt).value, hash)
    ensures Remove(t, hash, value).Ok? ==> WellFormed(Remove(t, hash, value).value, hash)
  {
  }

  /** A row found by `get_string` carries the analysis of its own value, whose digest is the one asked for. */
  lemma LookupWellFormed(t: Table, hash: String -> String, value: String)
    requires WellFormed(t, hash)
    ensures Lookup(t, hash, value).Ok? ==> var r := Lookup(t, hash, value).value;
      && hash(r.value) == hash(value)
      && r.id == hash(value)
      && r.properties == Analyze(r.value, hash)
  {
  }

  // ---------------- the listing scan ----------------

  /** The rows that pass `apply_filters_row`, in scan order. */
  function Select(rows: seq<Record>, f: FilterSet): seq<Record> {
    if rows == [] then []
    else
      var last := rows[|rows| - 1];
      Select(rows[..|rows| - 1], f) + (if ApplyFilters(last.properties, f) then [last] else [])
  }

  /** Scanning one more row adds it to the listing exactly when it passes the filters. */
  lemma SelectSnoc(rows: seq<Record>, x: Record, f: FilterSet)
    ensures Select(rows + [x], f) == Select(rows, f) + (if ApplyFilters(x.properties, f) then [x] else [])
  {
    assert (rows + [x])[..|rows|] == rows;
  }

  /** Scanning two stretches of rows one after the other selects from each in turn. */
  lemma {:induction false} SelectAppend(a: seq<Record>, b: seq<Record>, f: FilterSet)
    ensures Select(a + b, f) == Select(a, f) + Select(b, f)
    decreases |b|
  {
    if b == [] {
      assert a + b == a;
    } else {
      var init := b[..|b| - 1];
      assert (a + b)[..|a + b| - 1] == a + init;
      SelectAppend(a, init, f);
    }
  }

  /** The selected rows are exactly the scanned rows that pass the filters, and no more of them. */
  lemma {:induction false} SelectMeaning(rows: seq<Record>, f: FilterSet)
    ensures forall x :: x in Select(rows, f) <==> x in rows && ApplyFilters(x.properties, f)
    ensures |Select(rows, f)| <= |rows|
  {
    if rows != [] {
      var init := rows[..|rows| - 1];
      SelectMeaning(init, f);
      assert rows == init + [rows[|rows| - 1]];
    }
  }

  /** With no filters the listing is the whole scan. */
  lemma {:induction false} SelectNoFilters(rows: seq<Record>)
    ensures Select(rows, NoFilters) == rows
  {
    if rows != [] {
      SelectNoFilters(rows[..|rows| - 1]);
      NoFiltersAcceptAll(rows[|rows| - 1].properties);
      assert rows == rows[..|rows| - 1] + [rows[|rows| - 1]];
    }
  }

  /**
   * On well-formed rows the listing holds exactly the rows whose values
   * match the filters, read as statements about the strings themselves.
   */
  lemma SelectWellFormed(rows: seq<Record>, hash: String -> String, f: FilterSet)
    requires forall x | x in rows :: x.properties == Analyze(x.value, hash)
    ensures forall x :: x in Select(rows, f) <==> x in rows && Matches(x.value, f)
  {
    SelectMeaning(rows, f);
    forall x | x in rows ensures ApplyFilters(x.properties, f) <==> Matches(x.value, f) {
      FiltersOnAnalyzed(x.value, hash, f);
    }
  }

  /** The rows of `t` under `ids`, in the order of `ids`. */
  function RowsOf(t: Table, ids: seq<String>): (rows: seq<Record>)
    requires forall id | id in ids :: id in t
    ensures |rows| == |ids|
  {
    if ids == [] then []
    else RowsOf(t, ids[..|ids| - 1]) + [t[ids[|ids| - 1]]]
  }

  /** The rows listed are exactly the rows of the table under the listed ids. */
  lemma {:induction false} RowsOfMembers(t: Table, ids: seq<String>)
    requires forall id | id in ids :: id in t
    ensures forall x :: x in RowsOf(t, ids) <==> exists id | id in ids :: t[id] == x
  {
    if ids != [] {
      var init := ids[..|ids| - 1];
      RowsOfMembers(t, init);
      assert ids == init + [ids[|ids| - 1]];
    }
  }

  /** `ids` without `x`. */
  function Without(ids: seq<String>, x: String): (r: seq<String>)
    ensures forall y :: y in r <==> y in ids && y != x
    ensures |r| <= |ids|
  {
    if ids == [] then []
    else (if ids[0] == x then [] else [ids[0]]) + Without(ids[1..], x)
  }

  predicate Distinct(ids: seq<String>) {
    forall i, j | 0 <= i < j < |ids| :: ids[i] != ids[j]
  }

  lemma {:induction false} WithoutDistinct(ids: seq<String>, x: String)
    requires Distinct(ids)
    ensures Distinct(Without(ids, x))
  {
    if ids != [] {
      WithoutDistinct(ids[1..], x);
      var r := Without(ids, x);
      var rest := Without(ids[1..], x);
      if ids[0] != x {
        assert ids[0] !in rest;
        assert r == [ids[0]] + rest;
        forall i, j | 0 <= i < j < |r| ensures r[i] != r[j] {
          if i == 0 {
            assert r[j] == rest[j - 1];
          } else {
            assert r[i] == rest[i - 1] && r[j] == rest[j - 1];
          }
        }
      }
    }
  }

  // ---------------- the store ----------------

  /**
   * The `strings` table: its rows keyed by id, and the order in which a
   * full scan returns them.
   */
  class Store {
    const hash: String -> String
    var table: Table
    var order: seq<String>

    ghost predicate Valid()
      reads this
    {
      && (forall id :: id in table <==> id in order)
      && Distinct(order)
      && WellFormed(table, hash)
    }

    /** The rows in scan order. */
    ghost function Rows(): seq<Record>
      reads this
      requires Valid()
    {
      RowsOf(table, order)
    }

    /** An empty table; `hash` is the digest the service keys its rows by. */
    constructor (hash: String -> String)
      ensures Valid() && this.hash == hash && table == map[] && order == []
    {
      this.hash := hash;
      table := map[];
      order := [];
    }

    /** `create_string`: insert the analysed value under its digest unless that id exists (409). */
    method Create(value: String, createdAt: String) returns (r: Result<Record>)
      requires Valid()
      modifies this
      ensures Valid()
      ensures var ins := Insert(old(table), hash, value, createdAt);
        && (ins.Err? ==> r == Err(Conflict) && table == old(table) && order == old(order))
        && (ins.Ok? ==> r == Ok(NewRecord(value, hash, createdAt)) && table == ins.value && order == old(order) + [hash(value)])
    {
      var props := Analyze(value, hash);
      var id := props.sha256Hash;
      if id in table {
        return Err(Conflict);
      }
      var row := Record(id, value, props, createdAt);
      table := table[id := row];
      order := order + [id];
      r := Ok(row);
    }

    /** `get_string`: the row under the digest of `value`, or 404. */
    method Get(value: String) returns (r: Result<Record>)
      requires Valid()
      ensures r == Lookup(table, hash, value)
      ensures r.Ok? ==> r.value in Rows() && r.value.properties == Analyze(r.value.value, hash)
    {
      var id := hash(value);
      if id in table {
        r := Ok(table[id]);
        RowsOfMembers(table, order);
      } else {
        r := Err(NotFound);
      }
    }

    /** `delete_string`: remove the row under the digest of `value`, or 404 when there is none. */
    method Delete(value: String) returns (r: Result<()>)
      requires Valid()
      modifies this
      ensures Valid()
      ensures var rem := Remove(old(table), hash, value);
        && (rem.Err? ==> r == Err(NotFound) && table == old(table) && order == old(order))
        && (rem.Ok? ==> r == Ok(()) && table == rem.value && order == Without(old(order), hash(value)))
    {
      var id := hash(value);
      if id !in table {
        return Err(NotFound);
      }
      WithoutDistinct(order, id);
      table := table - {id};
      order := Without(order, id);
      r := Ok(());
    }

    /** The scan shared by both listings: every row that passes the filters, in scan order. */
    method Scan(f: FilterSet) returns (results: seq<Record>)
      requires forall id | id in order :: id in table
      ensures results == Select(RowsOf(table, order), f)
    {
      results := [];
      for i := 0 to |order|
        invariant results == Select(RowsOf(table, order[..i]), f)
      {
        var row := table[order[i]];
        assert order[..i + 1][..i] == order[..i];
        SelectSnoc(RowsOf(table, order[..i]), row, f);
        if ApplyFilters(row.properties, f) {
          results := results + [row];
        }
      }
      assert order[..|order|] == order;
    }

    /** `list_strings`: the optional query parameters become the filters of the scan. */
    method ListStrings(isPalindrome: Option<bool>, minLength: Option<int>, maxLength: Option<int>,
                       wordCount: Option<int>, containsCharacter: Option<String>)
      returns (r: Listing)
      requires Valid()
      ensures r.filtersApplied == FilterSet(isPalindrome, minLength, maxLength, wordCount, containsCharacter)
      ensures r.data == Select(Rows(), r.filtersApplied) && r.count == |r.data|
      ensures forall x :: x in r.data <==> x in Rows() && Matches(x.value, r.filtersApplied)
    {
      var filters := FilterSet(isPalindrome, minLength, maxLength, wordCount, containsCharacter);
      var results := Scan(filters);
      r := Listing(results, |results|, filters);
      RowsWellFormed();
      SelectWellFormed(Rows(), hash, filters);
    }

    /** `filter_by_nl`: parse the query (400 when nothing is understood), then scan with the parsed filters. */
    method FilterByNaturalLanguage(query: String) returns (r: Result<NlListing>)
      requires Valid()
      ensures Parse(query).Err? <==> r.Err?
      ensures r.Err? ==> r.error == Unparseable
      ensures r.Ok? ==>
        && r.value.parsedFilters == Parse(query).value
        && r.value.original == query
        && r.value.data == Select(Rows(), r.value.parsedFilters)
        && r.value.count == |r.value.data|
    {
      var parsed := ParseQuery(query);
      if parsed.Err? {
        return Err(Unparseable);
      }
      var results := Scan(parsed.value);
      r := Ok(NlListing(results, |results|, query, parsed.value));
    }

    /** Every scanned row carries the analysis of its own value. */
    lemma RowsWellFormed()
      requires Valid()
      ensures forall x | x in Rows() :: x.properties == Analyze(x.value, hash)
    {
      RowsOfMembers(table, order);
    }
  }
}
