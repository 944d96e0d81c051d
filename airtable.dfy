/**
 * `insert`, `select`, `update` and `upsert` (src/airtable/airtable.ts) over
 * an in-memory model of one Airtable table. The remote store's answers are
 * modelled by the table itself; a call the store rejects is modelled by a
 * `fault` argument carrying the store's error.
 */
module Airtable {
  import opened Wrappers

  /** A cell value: string, number or boolean. */
  datatype Value = Text(text: string) | Num(number: real) | Flag(flag: bool)

  /** A record's fields, by field name. */
  type Fields = map<string, Value>

  /** Record ids are opaque tokens the store assigns; modelled as numbers. */
  type RecordId = nat

  /** A stored record, projected to `{ id, fields }`. */
  datatype Row = Row(id: RecordId, fields: Fields)

  /** An error the store reports; the call's promise rejects with it unchanged. */
  datatype StoreError = StoreError(message: string)

  /** The error the store reports for an update of an id it does not hold. */
  const NotFound: StoreError := StoreError("NOT_FOUND")

  /** One sort key of a `sort` option. */
  datatype SortField = SortField(field: string, descending: bool)

  /** The options `select` accepts; `maxRecords` is a record count. */
  datatype SelectOptions = SelectOptions(filterByFormula: string, sort: Option<seq<SortField>>, maxRecords: Option<nat>)

  /** The parameters `select` sends to the store. */
  datatype QueryParams = QueryParams(filterByFormula: string, sort: Option<seq<SortField>>, maxRecords: Option<nat>)

  /** The most records the store returns in its first page. */
  const PageSize: nat := 100

  /** The rows the formula selects, in table order. */
  function Matching(rows: seq<Row>, matches: (string, Fields) -> bool, formula: string): (r: seq<Row>)
    ensures |r| <= |rows|
    ensures forall k :: 0 <= k < |r| ==> r[k] in rows && matches(formula, r[k].fields)
    ensures r == [] <==> forall k :: 0 <= k < |rows| ==> !matches(formula, rows[k].fields)
  {
    if rows == [] then []
    else if matches(formula, rows[0].fields) then [rows[0]] + Matching(rows[1..], matches, formula)
    else Matching(rows[1..], matches, formula)
  }

  /** The index of the first row the formula selects. */
  function FirstMatch(rows: seq<Row>, matches: (string, Fields) -> bool, formula: string): (r: Option<nat>)
    ensures r.Some? ==> r.value < |rows| && matches(formula, rows[r.value].fields)
    ensures r.Some? ==> forall k :: 0 <= k < r.value ==> !matches(formula, rows[k].fields)
    ensures r.None? ==> forall k :: 0 <= k < |rows| ==> !matches(formula, rows[k].fields)
  {
    if rows == [] then None
    else if matches(formula, rows[0].fields) then Some(0)
    else match FirstMatch(rows[1..], matches, formula)
      case None => None
      case Some(i) => Some(i + 1)
  }

  /** The number of rows the store returns for a query: `maxRecords` when set, and at most a page. */
  function Limit(params: QueryParams): nat {
    match params.maxRecords
    case Some(m) => if m < PageSize then m else PageSize
    case None => PageSize
  }

  /**
   * The store's first page for a query: the matching rows, cut to the
   * limit. (The order a `sort` option asks for is not modelled: rows come
   * back in table order.)
   */
  function FirstPage(rows: seq<Row>, matches: (string, Fields) -> bool, params: QueryParams): (r: seq<Row>)
    ensures |r| <= Limit(params)
    ensures forall k :: 0 <= k < |r| ==> r[k] in rows && matches(params.filterByFormula, r[k].fields)
    ensures |r| < Limit(params) ==> r == Matching(rows, matches, params.filterByFormula)
    ensures |r| <= |Matching(rows, matches, params.filterByFormula)| && r == Matching(rows, matches, params.filterByFormula)[..|r|]
  {
    var m := Matching(rows, matches, params.filterByFormula);
    if |m| <= Limit(params) then m else m[..Limit(params)]
  }

  /** A one-record lookup returns the first row the formula selects, or nothing. */
  lemma {:induction false} SingleRecordLookup(rows: seq<Row>, matches: (string, Fields) -> bool, formula: string)
    ensures var page := FirstPage(rows, matches, QueryParams(formula, None, Some(1)));
            match FirstMatch(rows, matches, formula)
            case Some(i) => page == [rows[i]]
            case None => page == []
  {
    if rows != [] {
      SingleRecordLookup(rows[1..], matches, formula);
    }
  }

  /** A row appended to the table is selected by a formula exactly when the formula matches its fields. */
  lemma {:induction false} MatchingAppend(rows: seq<Row>, row: Row, matches: (string, Fields) -> bool, formula: string)
    ensures Matching(rows + [row], matches, formula) ==
            Matching(rows, matches, formula) + (if matches(formula, row.fields) then [row] else [])
  {
    if rows == [] {
      assert rows + [row] == [row];
      assert [row][1..] == [];
    } else {
      assert (rows + [row])[0] == rows[0];
      assert (rows + [row])[1..] == rows[1..] + [row];
      MatchingAppend(rows[1..], row, matches, formula);
    }
  }

  /**
   * When nothing matched and the inserted record matches the formula, the
   * next lookup with that formula finds the inserted row, so a second upsert
   * of the same record updates instead of inserting again.
   */
  lemma InsertedRecordFoundNext(rows: seq<Row>, id: RecordId, record: Fields, matches: (string, Fields) -> bool, formula: string)
    requires FirstMatch(rows, matches, formula).None? && matches(formula, record)
    ensures FirstMatch(rows + [Row(id, record)], matches, formula) == Some(|rows|)
  {
    var after := rows + [Row(id, record)];
    assert after[|rows|].fields == record;
    assert forall k :: 0 <= k < |rows| ==> after[k] == rows[k];
  }

  /** Where the row with a given id sits. */
  function IndexOfId(rows: seq<Row>, id: RecordId): (r: Option<nat>)
    ensures r.Some? ==> r.value < |rows| && rows[r.value].id == id
    ensures r.None? ==> forall k :: 0 <= k < |rows| ==> rows[k].id != id
  {
    if rows == [] then None
    else if rows[0].id == id then Some(0)
    else match IndexOfId(rows[1..], id)
      case None => None
      case Some(i) => Some(i + 1)
  }

  /** No two rows share an id. */
  predicate UniqueIds(rows: seq<Row>) {
    forall i, j :: 0 <= i < j < |rows| ==> rows[i].id != rows[j].id
  }

  /** With unique ids, looking a row's id up finds that row. */
  lemma IndexOfOwnId(rows: seq<Row>, i: nat)
    requires UniqueIds(rows) && i < |rows|
    ensures IndexOfId(rows, rows[i].id) == Some(i)
  {
    var r := IndexOfId(rows, rows[i].id);
    assert r.Some?;
    assert r.value == i;
  }

  /**
   * How the store applies an update: the given fields replace or add to
   * the row's fields, the others stay (an assumption about the store).
   */
  function Merge(current: Fields, record: Fields): (r: Fields)
    ensures r.Keys == current.Keys + record.Keys
    ensures forall k :: k in record ==> r[k] == record[k]
    ensures forall k :: k in current && k !in record ==> r[k] == current[k]
  {
    current + record
  }

  /** One table of the store. */
  class Table {
    /** The stored records, in the store's order. */
    var rows: seq<Row>
    /** The next id the store will assign. */
    var nextId: RecordId
    /** The store's evaluation of a `filterByFormula` formula on a record's fields. */
    const matches: (string, Fields) -> bool

    ghost predicate Valid()
      reads this
    {
      UniqueIds(rows) && forall k :: 0 <= k < |rows| ==> rows[k].id < nextId
    }

    constructor (matches: (string, Fields) -> bool)
      ensures Valid() && rows == [] && this.matches == matches
    {
      rows := [];
      nextId := 0;
      this.matches := matches;
    }

    /**
     * `insert({ tableName, record })`: the store appends a record with a
     * fresh id, and the call resolves with the caller's `record` (not the
     * stored row); a store error rejects and changes nothing.
     */
    method Insert(record: Fields, fault: Option<StoreError>) returns (r: Result<Fields, StoreError>)
      requires Valid()
      modifies this
      ensures Valid()
      ensures fault.Some? ==> r == Err(fault.value) && rows == old(rows)
      ensures fault.None? ==> r == Ok(record) && rows == old(rows) + [Row(old(nextId), record)]
      ensures nextId == if fault.Some? then old(nextId) else old(nextId) + 1
    {
      if fault.Some? {
        return Err(fault.value);
      }
      rows := rows + [Row(nextId, record)];
      nextId := nextId + 1;
      r := Ok(record);
    }

    /**
     * `select({ tableName, filterByFormula, sort, maxRecords })`: the query
     * always carries the formula, carries `sort` only when given and
     * `maxRecords` only when it is truthy (not 0); it resolves with the
     * store's first page projected to `{ id, fields }`.
     */
    method Select(options: SelectOptions, fault: Option<StoreError>) returns (sent: QueryParams, r: Result<seq<Row>, StoreError>)
      requires Valid()
      ensures sent.filterByFormula == options.filterByFormula
      ensures sent.sort == options.sort
      ensures sent.maxRecords == if options.maxRecords.Some? && options.maxRecords.value != 0 then options.maxRecords else None
      ensures fault.Some? ==> r == Err(fault.value)
      ensures fault.None? ==> r == Ok(FirstPage(rows, matches, sent))
    {
      sent := QueryParams(options.filterByFormula, None, None);
      if options.sort.Some? {
        sent := sent.(sort := options.sort);
      }
      if options.maxRecords.Some? && options.maxRecords.value != 0 {
        sent := sent.(maxRecords := options.maxRecords);
      }
      if fault.Some? {
        return sent, Err(fault.value);
      }
      r := Ok(FirstPage(rows, matches, sent));
    }

    /**
     * `update({ tableName, recordId, record })`: the store merges `record`
     * into the row with that id, and the call resolves with the caller's
     * `record`; an unknown id or a store error rejects and changes nothing.
     */
    method Update(id: RecordId, record: Fields, fault: Option<StoreError>) returns (r: Result<Fields, StoreError>)
      requires Valid()
      modifies this
      ensures Valid() && nextId == old(nextId)
      ensures fault.Some? ==> r == Err(fault.value) && rows == old(rows)
      ensures fault.None? && IndexOfId(old(rows), id).None? ==> r == Err(NotFound) && rows == old(rows)
      ensures fault.None? && IndexOfId(old(rows), id).Some? ==>
                var i := IndexOfId(old(rows), id).value;
                r == Ok(record) && rows == old(rows)[i := Row(id, Merge(old(rows)[i].fields, record))]
    {
      if fault.Some? {
        return Err(fault.value);
      }
      match IndexOfId(rows, id)
      case None =>
        r := Err(NotFound);
      case Some(i) =>
        rows := rows[i := Row(id, Merge(rows[i].fields, record))];
        r := Ok(record);
    }

    /**
     * `upsert({ tableName, filterByFormula, record })`: look up at most one
     * matching record; update it by id if there is one, insert `record`
     * otherwise. Any error is rethrown unchanged. The lookup and the write
     * can each fail (`lookupFault`, `writeFault`).
     */
    method Upsert(filterByFormula: string, record: Fields, lookupFault: Option<StoreError>, writeFault: Option<StoreError>)
      returns (lookup: QueryParams, r: Result<Fields, StoreError>)
      requires Valid()
      modifies this
      ensures Valid()
      ensures lookup == QueryParams(filterByFormula, None, Some(1))
      ensures lookupFault.Some? ==> r == Err(lookupFault.value) && rows == old(rows) && nextId == old(nextId)
      ensures lookupFault.None? && writeFault.Some? ==> r == Err(writeFault.value) && rows == old(rows) && nextId == old(nextId)
      ensures lookupFault.None? && writeFault.None? ==>
                r == Ok(record) &&
                match FirstMatch(old(rows), matches, filterByFormula)
                case Some(i) => rows == old(rows)[i := Row(old(rows)[i].id, Merge(old(rows)[i].fields, record))] && nextId == old(nextId)
                case None => rows == old(rows) + [Row(old(nextId), record)] && nextId == old(nextId) + 1
    {
      var found;
      lookup, found := Select(SelectOptions(filterByFormula, None, Some(1)), lookupFault);
      if found.Err? {
        return lookup, Err(found.error);
      }
      SingleRecordLookup(rows, matches, filterByFormula);
      if |found.value| > 0 {
        var i := FirstMatch(rows, matches, filterByFormula).value;
        IndexOfOwnId(rows, i);
        r := Update(found.value[0].id, record, writeFault);
      } else {
        r := Insert(record, writeFault);
      }
    }
  }
}
