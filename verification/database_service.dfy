/**
 The persistence layer over an abstract store: the `countries` table is a
 sequence of rows in insertion order, `AUTO_INCREMENT` is a counter, and the
 `metadata` table is a map from key to entry. Name matching is
 `LOWER(name) = LOWER(?)` with ASCII lower-casing. The value of SQL `NOW()`
 is a parameter.
 */
module DatabaseService {
  import opened Wrappers
  import opened JsValues
  import opened Text
  import opened CountryService

  /** A stored country: its identity, the eight enriched fields and the refresh stamp. */
  datatype Row = Row(id: nat, data: EnrichedCountry, lastRefreshedAt: string)

  /** A `metadata` row: its `value` column, which may be `NULL`, and its `updated_at` column. */
  datatype MetaEntry = MetaEntry(value: Option<string>, updatedAt: string)

  datatype Db = Db(rows: seq<Row>, nextId: nat, metadata: map<string, MetaEntry>)

  /** The store after a write, with what the write returns (`insertId` or `affectedRows`). */
  datatype Written = Written(db: Db, result: nat)

  /** `{ total_countries, last_refreshed_at }`. */
  datatype Status = Status(totalCountries: nat, lastRefreshedAt: Option<string>)

  const LastRefreshedKey: string := "last_refreshed_at"

  /** The row satisfies `LOWER(name) = LOWER(?)` for the given name. */
  predicate Matches(row: Row, name: string)
  {
    SameName(row.data.name, name)
  }

  /** Identities are distinct and below the next `AUTO_INCREMENT` value. */
  ghost predicate Wf(db: Db)
  {
    && (forall i | 0 <= i < |db.rows| :: db.rows[i].id < db.nextId)
    && (forall i, j | 0 <= i < j < |db.rows| :: db.rows[i].id != db.rows[j].id)
  }

  /** No two rows share a name up to case, as a unique index on the lower-cased name would enforce. */
  ghost predicate NamesUnique(rows: seq<Row>)
  {
    forall i, j | 0 <= i < j < |rows| :: !SameName(rows[i].data.name, rows[j].data.name)
  }

  /** Which rows a `WHERE LOWER(name) = LOWER(?)` selects, in table order. */
  function MatchFlags(rows: seq<Row>, name: string): (flags: seq<bool>)
    ensures |flags| == |rows|
    ensures forall i | 0 <= i < |rows| :: flags[i] == Matches(rows[i], name)
  {
    seq(|rows|, i requires 0 <= i < |rows| => Matches(rows[i], name))
  }

  /** Number of rows the name selects. */
  function MatchCount(rows: seq<Row>, name: string): nat
  {
    multiset(MatchFlags(rows, name))[true]
  }

  /** Some row is selected exactly when the count of selected rows is positive. */
  lemma MatchCountPositive(rows: seq<Row>, name: string)
    ensures MatchCount(rows, name) > 0 <==> CountryExists(rows, name)
  {
    if CountryExists(rows, name) {
      var i :| 0 <= i < |rows| && Matches(rows[i], name);
      assert MatchFlags(rows, name)[i];
    } else {
      assert true !in MatchFlags(rows, name);
    }
  }

  /** Index of the first row the name selects. */
  function FindFirst(rows: seq<Row>, name: string): (r: Option<nat>)
    ensures r.Some? ==> r.value < |rows| && Matches(rows[r.value], name)
    ensures r.Some? ==> forall j | 0 <= j < r.value :: !Matches(rows[j], name)
    ensures r.None? ==> forall j | 0 <= j < |rows| :: !Matches(rows[j], name)
  {
    if rows == [] then None
    else if Matches(rows[0], name) then Some(0)
    else
      match FindFirst(rows[1..], name)
      case Some(k) => Some(k + 1)
      case None => None
  }

  /** `countryExists(name)`: some row matches the name up to case. */
  function CountryExists(rows: seq<Row>, name: string): (r: bool)
    ensures r <==> exists i | 0 <= i < |rows| :: Matches(rows[i], name)
  {
    FindFirst(rows, name).Some?
  }

  /** `getCountryByName(name)`: the first row matching the name up to case, or `null`. */
  function GetCountryByName(rows: seq<Row>, name: string): (r: Option<Row>)
    ensures r.None? <==> forall j | 0 <= j < |rows| :: !Matches(rows[j], name)
    ensures r.Some? ==>
              exists i | 0 <= i < |rows| ::
                && rows[i] == r.value
                && Matches(rows[i], name)
                && forall j | 0 <= j < i :: !Matches(rows[j], name)
  {
    match FindFirst(rows, name)
    case Some(i) => Some(rows[i])
    case None => None
  }

  /** `insertCountry(data)`: appends one row carrying the eight fields and returns its `insertId`. */
  function InsertCountry(db: Db, c: EnrichedCountry, now: string): (r: Written)
    ensures |r.db.rows| == |db.rows| + 1
    ensures r.db.rows[..|db.rows|] == db.rows
    ensures r.db.rows[|db.rows|] == Row(r.result, c, now)
    ensures r.db.metadata == db.metadata
    ensures Wf(db) ==> Wf(r.db) && forall i | 0 <= i < |db.rows| :: db.rows[i].id != r.result
  {
    Written(Db(db.rows + [Row(db.nextId, c, now)], db.nextId + 1, db.metadata), db.nextId)
  }

  /** A matched row after the `UPDATE`: every column but the identity and the name is rewritten. */
  function Rewritten(row: Row, c: EnrichedCountry, now: string): Row
  {
    Row(row.id, c.(name := row.data.name), now)
  }

  /**
   `updateCountry(name, data)`: every row matching the name up to case takes
   all fields of `data` except the name, whose stored casing is kept; the
   result is the number of matched rows.
   */
  function UpdateCountry(db: Db, name: string, c: EnrichedCountry, now: string): (r: Written)
    ensures |r.db.rows| == |db.rows|
    ensures forall i | 0 <= i < |db.rows| && Matches(db.rows[i], name) ::
              && r.db.rows[i].id == db.rows[i].id
              && r.db.rows[i].data == c.(name := db.rows[i].data.name)
              && r.db.rows[i].lastRefreshedAt == now
    ensures forall i | 0 <= i < |db.rows| && !Matches(db.rows[i], name) :: r.db.rows[i] == db.rows[i]
    ensures r.result == MatchCount(db.rows, name)
    ensures r.result > 0 <==> CountryExists(db.rows, name)
    ensures r.db.nextId == db.nextId && r.db.metadata == db.metadata
  {
    var rows := seq(|db.rows|, i requires 0 <= i < |db.rows| =>
                    if Matches(db.rows[i], name) then Rewritten(db.rows[i], c, now) else db.rows[i]);
    MatchCountPositive(db.rows, name);
    Written(db.(rows := rows), MatchCount(db.rows, name))
  }

  /**
   `upsertCountry(data)`: updates the rows matching the name up to case when
   there is one, inserts a new row otherwise.
   */
  function UpsertCountry(db: Db, c: EnrichedCountry, now: string): (r: Written)
    ensures CountryExists(r.db.rows, c.name)
    ensures CountryExists(db.rows, c.name) ==>
              |r.db.rows| == |db.rows| && r.result == MatchCount(db.rows, c.name) && r.result > 0
    ensures !CountryExists(db.rows, c.name) ==>
              && |r.db.rows| == |db.rows| + 1
              && r.db.rows[..|db.rows|] == db.rows
              && r.db.rows[|db.rows|] == Row(r.result, c, now)
    ensures forall i | 0 <= i < |db.rows| ::
              r.db.rows[i].id == db.rows[i].id && r.db.rows[i].data.name == db.rows[i].data.name
    ensures forall i | 0 <= i < |db.rows| && !Matches(db.rows[i], c.name) :: r.db.rows[i] == db.rows[i]
    ensures forall i | 0 <= i < |r.db.rows| && Matches(r.db.rows[i], c.name) ::
              r.db.rows[i].data == c.(name := r.db.rows[i].data.name) && r.db.rows[i].lastRefreshedAt == now
    ensures r.db.metadata == db.metadata
  {
    if CountryExists(db.rows, c.name) then
      UpdateCountry(db, c.name, c, now)
    else
      var r := InsertCountry(db, c, now);
      assert Matches(r.db.rows[|db.rows|], c.name);
      r
  }

  /** An upsert keeps identities distinct and below the counter. */
  lemma UpsertPreservesWf(db: Db, c: EnrichedCountry, now: string)
    requires Wf(db)
    ensures Wf(UpsertCountry(db, c, now).db)
  {
    if CountryExists(db.rows, c.name) {
      var after := UpdateCountry(db, c.name, c, now).db;
      assert forall i | 0 <= i < |db.rows| :: after.rows[i].id == db.rows[i].id;
    }
  }

  /** An upsert does not introduce a second row with a case-insensitively equal name. */
  lemma UpsertPreservesNamesUnique(db: Db, c: EnrichedCountry, now: string)
    requires NamesUnique(db.rows)
    ensures NamesUnique(UpsertCountry(db, c, now).db.rows)
  {
    if !CountryExists(db.rows, c.name) {
      var r := InsertCountry(db, c, now);
      assert forall i | 0 <= i < |db.rows| :: r.db.rows[i] == db.rows[i];
    }
  }

  /** Every stored name stays stored across an upsert of any country. */
  lemma UpsertKeepsStoredNames(db: Db, c: EnrichedCountry, now: string)
    ensures forall name | CountryExists(db.rows, name) :: CountryExists(UpsertCountry(db, c, now).db.rows, name)
  {
    forall name | CountryExists(db.rows, name)
      ensures CountryExists(UpsertCountry(db, c, now).db.rows, name)
    {
      var i :| 0 <= i < |db.rows| && Matches(db.rows[i], name);
      assert Matches(UpsertCountry(db, c, now).db.rows[i], name);
    }
  }

  /** An update that rewrites each matching row to what it already holds changes nothing. */
  lemma UpdateOfWrittenRows(db: Db, c: EnrichedCountry, now: string)
    requires forall i | 0 <= i < |db.rows| && Matches(db.rows[i], c.name) ::
               db.rows[i].data == c.(name := db.rows[i].data.name) && db.rows[i].lastRefreshedAt == now
    ensures UpdateCountry(db, c.name, c, now).db == db
  {
    var after := UpdateCountry(db, c.name, c, now).db;
    forall i | 0 <= i < |db.rows|
      ensures after.rows[i] == db.rows[i]
    {
    }
    assert after.rows == db.rows;
  }

  /** Upserting the same country twice leaves the store as one upsert does. */
  lemma UpsertIdempotent(db: Db, c: EnrichedCountry, now: string)
    ensures UpsertCountry(UpsertCountry(db, c, now).db, c, now).db == UpsertCountry(db, c, now).db
  {
    var once := UpsertCountry(db, c, now).db;
    assert CountryExists(once.rows, c.name);
    UpdateOfWrittenRows(once, c, now);
  }

  /** In a table without case-duplicate names, a name matches at most one row. */
  lemma SoleMatch(rows: seq<Row>, name: string, i: nat)
    requires NamesUnique(rows)
    requires i < |rows| && Matches(rows[i], name)
    ensures forall j | 0 <= j < |rows| && Matches(rows[j], name) :: j == i
  {
    forall j | 0 <= j < |rows| && Matches(rows[j], name)
      ensures j == i
    {
      assert SameName(rows[i].data.name, rows[j].data.name);
    }
  }

  /**
   In a table without case-duplicate names, after an upsert exactly one row
   matches the name.
   */
  lemma UpsertLeavesSoleMatch(db: Db, c: EnrichedCountry, now: string)
    requires NamesUnique(db.rows)
    ensures
      var rows := UpsertCountry(db, c, now).db.rows;
      exists i | 0 <= i < |rows| :: Matches(rows[i], c.name) &&
        forall j | 0 <= j < |rows| && Matches(rows[j], c.name) :: j == i
  {
    UpsertPreservesNamesUnique(db, c, now);
    var rows := UpsertCountry(db, c, now).db.rows;
    assert CountryExists(rows, c.name);
    var i := FindFirst(rows, c.name).value;
    SoleMatch(rows, c.name, i);
  }

  /** After an upsert the lookup by the same name finds the upserted data, under the stored name, with the new stamp. */
  lemma UpsertThenLookup(db: Db, c: EnrichedCountry, now: string)
    ensures
      var found := GetCountryByName(UpsertCountry(db, c, now).db.rows, c.name);
      && found.Some?
      && found.value.data == c.(name := found.value.data.name)
      && found.value.lastRefreshedAt == now
  {
    var rows := UpsertCountry(db, c, now).db.rows;
    assert CountryExists(rows, c.name);
    var i := FindFirst(rows, c.name).value;
    assert GetCountryByName(rows, c.name) == Some(rows[i]);
    assert rows[i].data == c.(name := rows[i].data.name) && rows[i].lastRefreshedAt == now;
  }

  /** Names equal up to case find the same row. */
  lemma {:induction false} SameNameSameLookup(rows: seq<Row>, a: string, b: string)
    requires SameName(a, b)
    ensures FindFirst(rows, a) == FindFirst(rows, b)
  {
    if rows != [] {
      assert Matches(rows[0], a) == Matches(rows[0], b);
      SameNameSameLookup(rows[1..], a, b);
    }
  }

  /** Re-upserting a country under a differently cased name replaces the data the first name finds. */
  lemma LaterUpsertWins(db: Db, c1: EnrichedCountry, c2: EnrichedCountry, now1: string, now2: string)
    requires SameName(c1.name, c2.name)
    ensures
      var rows := UpsertCountry(UpsertCountry(db, c1, now1).db, c2, now2).db.rows;
      && GetCountryByName(rows, c1.name).Some?
      && GetCountryByName(rows, c1.name).value.data == c2.(name := GetCountryByName(rows, c1.name).value.data.name)
      && GetCountryByName(rows, c1.name).value.lastRefreshedAt == now2
  {
    var once := UpsertCountry(db, c1, now1).db;
    UpsertThenLookup(once, c2, now2);
    SameNameSameLookup(UpsertCountry(once, c2, now2).db.rows, c1.name, c2.name);
  }

  /** `getMetadata(key)`: the entry stored under the key, or `null`. */
  function GetMetadata(db: Db, key: string): (r: Option<MetaEntry>)
    ensures r.Some? <==> key in db.metadata
    ensures r.Some? ==> r.value == db.metadata[key]
  {
    if key in db.metadata then Some(db.metadata[key]) else None
  }

  /**
   `updateMetadata(key, value)`: an `UPDATE` only, so a key without a row is
   left absent and the write reports zero affected rows.
   */
  function UpdateMetadata(db: Db, key: string, value: string, now: string): (r: Written)
    ensures key in db.metadata ==>
              && key in r.db.metadata
              && r.db.metadata[key] == MetaEntry(Some(value), now)
              && r.result == 1
    ensures key !in db.metadata ==> r.db == db && r.result == 0
    ensures r.db.metadata.Keys == db.metadata.Keys
    ensures forall k | k in db.metadata && k != key :: r.db.metadata[k] == db.metadata[k]
    ensures r.db.rows == db.rows && r.db.nextId == db.nextId
  {
    if key in db.metadata then
      Written(db.(metadata := db.metadata[key := MetaEntry(Some(value), now)]), 1)
    else
      Written(db, 0)
  }

  /**
   `getStatus()`: the row count and the last refresh value; `null` when no
   such entry exists or its value is `NULL`.
   */
  function GetStatus(db: Db): (r: Status)
    ensures r.totalCountries == |db.rows|
    ensures r.lastRefreshedAt.Some? <==>
              LastRefreshedKey in db.metadata && db.metadata[LastRefreshedKey].value.Some?
    ensures r.lastRefreshedAt.Some? ==> r.lastRefreshedAt == db.metadata[LastRefreshedKey].value
  {
    var entry := GetMetadata(db, LastRefreshedKey);
    Status(|db.rows|, if entry.Some? then entry.value.value else None)
  }

  /**
   Stamping the refresh time is what the status reports next, provided the
   metadata row exists; without it the status keeps reporting `null`.
   */
  lemma StatusAfterStamp(db: Db, stamp: string, now: string)
    ensures
      var s := GetStatus(UpdateMetadata(db, LastRefreshedKey, stamp, now).db);
      && s.totalCountries == |db.rows|
      && s.lastRefreshedAt == (if LastRefreshedKey in db.metadata then Some(stamp) else None)
  {
  }

  /** An upsert grows the reported total by one exactly when the name was not stored yet. */
  lemma StatusAfterUpsert(db: Db, c: EnrichedCountry, now: string)
    ensures GetStatus(UpsertCountry(db, c, now).db).totalCountries
            == GetStatus(db).totalCountries + (if CountryExists(db.rows, c.name) then 0 else 1)
    ensures GetStatus(UpsertCountry(db, c, now).db).lastRefreshedAt == GetStatus(db).lastRefreshedAt
  {
  }

  // ---------------------------------------------------------------------------
  // Query construction of getAllCountries

  /** The `region` and `currency` query filters; each applies only when truthy. */
  datatype Filters = Filters(region: JsString, currency: JsString)

  /** SQL text with its positional parameters. */
  datatype Query = Query(sql: string, params: seq<string>)

  const SelectAll: string := "SELECT * FROM countries"

  /** The recognised sort keys. */
  datatype SortKey = GdpDesc | GdpAsc | PopulationDesc | PopulationAsc | NameAsc | NameDesc

  /** The request parameter value that selects a sort key. */
  function KeyName(k: SortKey): string
  {
    match k
    case GdpDesc => "gdp_desc"
    case GdpAsc => "gdp_asc"
    case PopulationDesc => "population_desc"
    case PopulationAsc => "population_asc"
    case NameAsc => "name_asc"
    case NameDesc => "name_desc"
  }

  /** The column a sort key orders by. */
  function Column(k: SortKey): string
  {
    match k
    case GdpDesc | GdpAsc => "estimated_gdp"
    case PopulationDesc | PopulationAsc => "population"
    case NameAsc | NameDesc => "name"
  }

  /** The direction a sort key orders in. */
  function Direction(k: SortKey): string
  {
    match k
    case GdpDesc | PopulationDesc | NameDesc => "DESC"
    case GdpAsc | PopulationAsc | NameAsc => "ASC"
  }

  /** The condition each filter adds; its `?` is bound to the filter's value. */
  const RegionCondition: string := "region = ?"
  const CurrencyCondition: string := "currency_code = ?"

  /** The conditions of the truthy filters, region first, each with its parameter. */
  function Conditions(f: Filters): (r: (seq<string>, seq<string>))
    ensures |r.0| == |r.1| == (if Truthy(f.region) then 1 else 0) + (if Truthy(f.currency) then 1 else 0)
    ensures Truthy(f.region) ==> r.0[0] == RegionCondition && r.1[0] == f.region.text
    ensures Truthy(f.currency) ==> r.0[|r.0| - 1] == CurrencyCondition && r.1[|r.1| - 1] == f.currency.text
  {
    var (c1, p1) := if Truthy(f.region) then ([RegionCondition], [f.region.text]) else ([], []);
    var (c2, p2) := if Truthy(f.currency) then ([CurrencyCondition], [f.currency.text]) else ([], []);
    (c1 + c2, p1 + p2)
  }

  /** The `WHERE` clause: the conditions joined with `AND`, or nothing. */
  function WhereClause(f: Filters): (w: string)
    ensures !Truthy(f.region) && !Truthy(f.currency) ==> w == ""
    ensures Truthy(f.region) && !Truthy(f.currency) ==> w == " WHERE " + RegionCondition
    ensures !Truthy(f.region) && Truthy(f.currency) ==> w == " WHERE " + CurrencyCondition
    ensures Truthy(f.region) && Truthy(f.currency) ==> w == " WHERE " + (RegionCondition + " AND " + CurrencyCondition)
  {
    var conditions := Conditions(f).0;
    JoinPair(RegionCondition, CurrencyCondition, " AND ");
    if |conditions| > 0 then " WHERE " + Join(conditions, " AND ") else ""
  }

  /** The `switch (sortBy)` of the query builder: the sort key a truthy parameter names, if any. */
  function ParseSortKey(sortBy: JsString): (k: Option<SortKey>)
    ensures k.Some? ==> sortBy == Str(KeyName(k.value))
  {
    if !Truthy(sortBy) then None
    else
      match sortBy.text
      case "gdp_desc" => Some(GdpDesc)
      case "gdp_asc" => Some(GdpAsc)
      case "population_desc" => Some(PopulationDesc)
      case "population_asc" => Some(PopulationAsc)
      case "name_asc" => Some(NameAsc)
      case "name_desc" => Some(NameDesc)
      case _ => None
  }

  /** `sortBy` is none of the recognised values. */
  predicate Unrecognised(sortBy: JsString)
  {
    !Truthy(sortBy) || forall k: SortKey :: KeyName(k) != sortBy.text
  }

  /** Every sort key is recognised from its own name. */
  lemma ParseKeyName(k: SortKey)
    ensures ParseSortKey(Str(KeyName(k))) == Some(k)
  {
  }

  /** A recognised parameter is the name of the key it selects, and an unrecognised one selects none. */
  lemma ParseSortKeyNames(sortBy: JsString)
    ensures ParseSortKey(sortBy).Some? ==> sortBy == Str(KeyName(ParseSortKey(sortBy).value))
    ensures ParseSortKey(sortBy).None? <==> Unrecognised(sortBy)
  {
    if ParseSortKey(sortBy).None? && Truthy(sortBy) {
      forall k: SortKey
        ensures KeyName(k) != sortBy.text
      {
        if KeyName(k) == sortBy.text {
          ParseKeyName(k);
        }
      }
    }
  }

  /** The clause that orders by a key's column in its direction. */
  function OrderByText(k: SortKey): string
  {
    " ORDER BY " + Column(k) + " " + Direction(k)
  }

  /** The `ORDER BY` clause: the column and direction of the selected key, or nothing; never a placeholder. */
  function OrderByClause(sortBy: JsString): (clause: string)
    ensures '?' !in clause
  {
    match ParseSortKey(sortBy)
    case Some(k) =>
      KeyTextFree(k);
      OrderByText(k)
    case None => ""
  }

  /**
   The SQL text and parameters `getAllCountries(filters, sortBy)` executes:
   one parameter per truthy filter, region first; the text orders by the
   column and direction of a recognised sort key and ignores any other
   value; every parameter has exactly one placeholder.
   */
  function GetAllCountriesQuery(f: Filters, sortBy: JsString): (q: Query)
    ensures q.params == (if Truthy(f.region) then [f.region.text] else [])
                        + (if Truthy(f.currency) then [f.currency.text] else [])
    ensures forall k: SortKey | sortBy == Str(KeyName(k)) ::
              q.sql == SelectAll + WhereClause(f) + OrderByText(k)
    ensures Unrecognised(sortBy) ==> q.sql == SelectAll + WhereClause(f)
    ensures CountChar(q.sql, '?') == |q.params|
  {
    var sql := SelectAll + WhereClause(f) + OrderByClause(sortBy);
    PlaceholderCount(f, sortBy);
    ParseSortKeyNames(sortBy);
    KeyNamesUnique(sortBy);
    Query(sql, Conditions(f).1)
  }

  lemma JoinPair(a: string, b: string, sep: string)
    ensures Join([a, b], sep) == a + sep + b
  {
    assert [a, b][1..] == [b];
  }

  /** A parameter names at most one sort key. */
  lemma KeyNamesUnique(sortBy: JsString)
    ensures forall k1: SortKey, k2: SortKey | sortBy == Str(KeyName(k1)) && sortBy == Str(KeyName(k2)) :: k1 == k2
  {
  }

  /** A column or direction name holds no placeholder. */
  lemma KeyTextFree(k: SortKey)
    ensures '?' !in Column(k) && '?' !in Direction(k)
  {
  }

  /** No `ORDER BY` clause holds a placeholder. */
  lemma OrderByHasNoPlaceholder(sortBy: JsString)
    ensures CountChar(OrderByClause(sortBy), '?') == 0
  {
    CountCharAbsent(OrderByClause(sortBy), '?');
  }

  /** A placeholder-free keyword followed by one condition counts one placeholder. */
  lemma OneConditionPlaceholder(keyword: string, condition: string, c: char)
    requires c !in keyword
    requires |condition| > 0 && condition[|condition| - 1] == c && c !in condition[..|condition| - 1]
    ensures CountChar(keyword + condition, c) == 1
  {
    CountCharAbsent(keyword, c);
    CountCharOnceAtEnd(condition, c);
    CountCharConcat(keyword, condition, c);
  }

  /** A placeholder-free keyword followed by two conditions and a placeholder-free separator counts two. */
  lemma TwoConditionPlaceholders(keyword: string, first: string, sep: string, second: string, c: char)
    requires c !in keyword && c !in sep
    requires |first| > 0 && first[|first| - 1] == c && c !in first[..|first| - 1]
    requires |second| > 0 && second[|second| - 1] == c && c !in second[..|second| - 1]
    ensures CountChar(keyword + (first + sep + second), c) == 2
  {
    CountCharAbsent(keyword, c);
    CountCharAbsent(sep, c);
    CountCharOnceAtEnd(first, c);
    CountCharOnceAtEnd(second, c);
    CountCharConcat(keyword, first + sep + second, c);
    CountCharConcat(first + sep, second, c);
    CountCharConcat(first, sep, c);
  }

  /** The `WHERE` clause holds one placeholder per truthy filter. */
  lemma WhereHasOnePlaceholderPerFilter(f: Filters)
    ensures CountChar(WhereClause(f), '?') == |Conditions(f).1|
  {
    var conditions := Conditions(f).0;
    if Truthy(f.region) && Truthy(f.currency) {
      TwoConditionPlaceholders(" WHERE ", RegionCondition, " AND ", CurrencyCondition, '?');
    } else if Truthy(f.region) {
      OneConditionPlaceholder(" WHERE ", RegionCondition, '?');
    } else if Truthy(f.currency) {
      OneConditionPlaceholder(" WHERE ", CurrencyCondition, '?');
    } else {
      assert WhereClause(f) == "";
    }
  }

  /** A prefix free of `c` adds nothing to the count of `c`. */
  lemma CountCharAfterFreePrefix(prefix: string, a: string, b: string, c: char)
    requires c !in prefix
    ensures CountChar(prefix + a + b, c) == CountChar(a, c) + CountChar(b, c)
  {
    CountCharAbsent(prefix, c);
    CountCharConcat(prefix + a, b, c);
    CountCharConcat(prefix, a, c);
  }

  /** The SQL text carries one `?` per truthy filter and none elsewhere. */
  lemma PlaceholderCount(f: Filters, sortBy: JsString)
    ensures CountChar(SelectAll + WhereClause(f) + OrderByClause(sortBy), '?') == |Conditions(f).1|
  {
    CountCharAfterFreePrefix(SelectAll, WhereClause(f), OrderByClause(sortBy), '?');
    OrderByHasNoPlaceholder(sortBy);
    WhereHasOnePlaceholderPerFilter(f);
  }

  /** With no truthy filter and no recognised sort key the query is the bare select. */
  lemma UnfilteredQuery(f: Filters, sortBy: JsString)
    requires !Truthy(f.region) && !Truthy(f.currency) && Unrecognised(sortBy)
    ensures GetAllCountriesQuery(f, sortBy) == Query(SelectAll, [])
  {
  }
}
