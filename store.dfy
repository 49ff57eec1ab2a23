/** The row store of the `useSpreadsheetData` hook
    (src/hooks/useSpreadsheetData.ts): the stored rows, the three query
    settings, and the operations the hook hands to the components. */
module SpreadsheetData {
  import opened Wrappers
  import opened Seqs
  import opened Text
  import opened Spreadsheet
  import Query
  import Csv

  // ------------------------------------------------------------ seed rows

  /** `initialData`: the five rows every session starts with. */
  const Seed: seq<Row> := [
    Row("1", "Launch new media campaign for product launch and market penetration strategy",
        "28-10-2024", "Need to start", "Max Khan", "www.fruitkart.com", "High", "10-30-2024", "8,20,000"),
    Row("2", "Update press kit for company redesign and brand refresh initiative",
        "28-10-2024", "In-progress", "Mark Johnson", "www.markjohns.com", "Medium", "10-30-2024", "1,500,000"),
    Row("3", "Analyze user testing feedback for app improvement and optimization",
        "05-10-2024", "Complete", "Emily Green", "www.marketgu.com", "Low", "16-10-2024", "4,750,000"),
    Row("4", "Design new features for the website and mobile application",
        "10-01-2025", "Complete", "Tom Wright", "www.example.com", "Low", "16-01-2025", "5,500,000"),
    Row("5", "Prepare financial report for Q4 and annual business review",
        "25-01-2025", "Blocked", "Jessica Brown", "www.jessicab.com", "High", "30-01-2025", "2,800,000")
  ]

  // ------------------------------------------------------------------ ids

  /** Every id reads completely as a number under `parseInt`. */
  predicate AllDecimal(rows: seq<Row>)
  {
    forall i :: 0 <= i < |rows| ==> IsDecimal(rows[i].id)
  }

  /** No two rows carry the same numeric id. */
  predicate IdsUnique(rows: seq<Row>)
    requires AllDecimal(rows)
  {
    forall i, j :: 0 <= i < j < |rows| ==> DecimalValue(rows[i].id) != DecimalValue(rows[j].id)
  }

  /** The store invariant: ids are distinct decimal numbers. */
  predicate IdsValid(rows: seq<Row>)
  {
    AllDecimal(rows) && IdsUnique(rows)
  }

  /** The largest parsed id, or 0 for a store without rows. */
  function MaxId(rows: seq<Row>): (m: nat)
    requires AllDecimal(rows)
    ensures forall i :: 0 <= i < |rows| ==> DecimalValue(rows[i].id) <= m
    ensures rows == [] ==> m == 0
    ensures rows != [] ==> exists i :: 0 <= i < |rows| && DecimalValue(rows[i].id) == m
    decreases |rows|
  {
    if rows == [] then 0
    else
      var init := rows[..|rows| - 1];
      assert forall i :: 0 <= i < |init| ==> init[i] == rows[i];
      var m := MaxId(init);
      var last := DecimalValue(rows[|rows| - 1].id);
      if last >= m then last else m
  }

  /** The id `addRow` gives a new row: one more than the largest id. */
  function NextId(rows: seq<Row>): (id: string)
    requires AllDecimal(rows)
    ensures IsDecimal(id)
    ensures forall i :: 0 <= i < |rows| ==> DecimalValue(rows[i].id) < DecimalValue(id)
  {
    NatToString(MaxId(rows) + 1)
  }

  lemma NextIdOfEmpty()
    ensures NextId([]) == "1"
  {
    assert NatToString(1) == [DigitChar(1)];
  }

  // ------------------------------------------- ids as the source computes them

  /** A number as `Math.max` returns it: `-Infinity` or a finite value. */
  datatype JsNumber = NegInfinity | Finite(value: int)

  /** `Math.max(...xs)`: `-Infinity` when there are no arguments. */
  function JsMax(xs: seq<int>): (r: JsNumber)
    ensures r == NegInfinity <==> xs == []
    ensures r.Finite? ==> (forall i :: 0 <= i < |xs| ==> xs[i] <= r.value)
                          && exists i :: 0 <= i < |xs| && xs[i] == r.value
    decreases |xs|
  {
    if xs == [] then NegInfinity
    else
      var init := xs[..|xs| - 1];
      assert forall i :: 0 <= i < |init| ==> init[i] == xs[i];
      var last := xs[|xs| - 1];
      match JsMax(init)
      case NegInfinity => Finite(last)
      case Finite(m) => if last >= m then Finite(last) else Finite(m)
  }

  /** `data.map(row => parseInt(row.id))` */
  function ParsedIds(rows: seq<Row>): (r: seq<int>)
    requires AllDecimal(rows)
    ensures |r| == |rows| && forall i :: 0 <= i < |rows| ==> r[i] == DecimalValue(rows[i].id) >= 0
  {
    seq(|rows|, i requires 0 <= i < |rows| => DecimalValue(rows[i].id))
  }

  /** `(Math.max(...data.map(row => parseInt(row.id))) + offset).toString()`
      exactly as `addRow` (offset 1) and `importData` (offset index + 1)
      compute it; `-Infinity + offset` is still `-Infinity`. */
  function IdAsWritten(rows: seq<Row>, offset: nat): (r: string)
    requires AllDecimal(rows)
    ensures rows == [] ==> r == "-Infinity"
    ensures rows != [] ==> IsDecimal(r)
  {
    match JsMax(ParsedIds(rows))
    case NegInfinity => "-Infinity"
    case Finite(m) => NatToString(m + offset)
  }

  /** On a store with rows the source's id arithmetic is the model's. */
  lemma IdAsWrittenAgrees(rows: seq<Row>, offset: nat)
    requires AllDecimal(rows) && rows != []
    ensures IdAsWritten(rows, offset) == NatToString(MaxId(rows) + offset)
  {
    var xs := ParsedIds(rows);
    var r := JsMax(xs);
    assert r.Finite?;
    var i :| 0 <= i < |xs| && xs[i] == r.value;
    var j :| 0 <= j < |rows| && DecimalValue(rows[j].id) == MaxId(rows);
    assert xs[j] <= r.value;
    assert DecimalValue(rows[i].id) <= MaxId(rows);
    assert r.value == MaxId(rows);
    assert IdAsWritten(rows, offset) == NatToString(r.value + offset);
  }

  /** On an empty store the source produces the id "-Infinity", which is not
      a number, and `importData` gives every imported row that same id. */
  lemma EmptyStoreIdAsWritten()
    ensures IdAsWritten([], 1) == "-Infinity"
    ensures !IsDecimal(IdAsWritten([], 1))
    ensures IdAsWritten([], 1) == IdAsWritten([], 2)
  {
    assert !IsDigit("-Infinity"[0]);
  }

  // ---------------------------------------------------- pure store updates

  /** The filter predicate of `deleteRows`: the id is not listed. */
  function NotListed(rowIds: seq<string>): Row -> bool
  {
    (row: Row) => row.id !in rowIds
  }

  /** `prev.map(row => row.id === id ? { ...row, ...updates } : row)` */
  function UpdateRows(rows: seq<Row>, id: string, updates: Updates): (r: seq<Row>)
    ensures |r| == |rows|
  {
    seq(|rows|, i requires 0 <= i < |rows| => if rows[i].id == id then Merge(rows[i], updates) else rows[i])
  }

  /** Dropping rows keeps ids valid. */
  lemma {:induction false} FilterKeepsIdsValid(p: Row -> bool, rows: seq<Row>)
    requires IdsValid(rows)
    ensures IdsValid(Filter(p, rows))
    decreases |rows|
  {
    if rows != [] {
      var tail := rows[1..];
      assert IdsValid(tail) by {
        assert forall i :: 0 <= i < |tail| ==> tail[i] == rows[i + 1];
      }
      FilterKeepsIdsValid(p, tail);
      var ft := Filter(p, tail);
      if p(rows[0]) {
        forall y | y in ft ensures DecimalValue(y.id) != DecimalValue(rows[0].id) {
          var k :| 0 <= k < |tail| && tail[k] == y;
          assert tail[k] == rows[k + 1];
        }
        ConsKeepsIdsValid(rows[0], ft);
      }
    }
  }

  /** A row with a fresh numeric id may go in front of rows with valid ids. */
  lemma ConsKeepsIdsValid(x: Row, s: seq<Row>)
    requires IdsValid(s) && IsDecimal(x.id)
    requires forall y :: y in s ==> DecimalValue(y.id) != DecimalValue(x.id)
    ensures IdsValid([x] + s)
  {
    var r := [x] + s;
    forall i, j | 0 <= i < j < |r| ensures DecimalValue(r[i].id) != DecimalValue(r[j].id) {
      assert r[j] == s[j - 1];
      if i > 0 {
        assert r[i] == s[i - 1];
      }
    }
  }

  /** Appending rows whose ids are decimal, above every stored id and
      increasing keeps ids valid. */
  lemma AppendKeepsIdsValid(rows: seq<Row>, added: seq<Row>)
    requires IdsValid(rows) && AllDecimal(added)
    requires forall k :: 0 <= k < |added| ==> DecimalValue(added[k].id) > MaxId(rows)
    requires forall k, l :: 0 <= k < l < |added| ==> DecimalValue(added[k].id) < DecimalValue(added[l].id)
    ensures IdsValid(rows + added)
  {
    var r := rows + added;
    forall i, j | 0 <= i < j < |r| ensures DecimalValue(r[i].id) != DecimalValue(r[j].id) {
      if j >= |rows| && i < |rows| {
        assert DecimalValue(r[i].id) <= MaxId(rows);
      }
    }
  }

  /** `addRow` keeps ids valid. */
  lemma AddKeepsIdsValid(rows: seq<Row>, newRow: Row)
    requires IdsValid(rows)
    ensures IdsValid(rows + [Set(newRow, Id, NextId(rows))])
  {
    AppendKeepsIdsValid(rows, [Set(newRow, Id, NextId(rows))]);
  }

  /** `importData` keeps ids valid. */
  lemma ImportKeepsIdsValid(rows: seq<Row>, text: string, today: string)
    requires IdsValid(rows)
    ensures IdsValid(rows + Csv.ImportRows(text, MaxId(rows), today))
  {
    Csv.ImportIds(text, MaxId(rows), today);
    AppendKeepsIdsValid(rows, Csv.ImportRows(text, MaxId(rows), today));
  }

  /** `deleteRows` keeps exactly the rows whose id is not listed; if no
      stored id is listed, nothing changes. */
  lemma DeleteRowsKeeps(rows: seq<Row>, rowIds: seq<string>)
    ensures forall row :: row in Filter(NotListed(rowIds), rows) <==> row in rows && row.id !in rowIds
    ensures (forall i :: 0 <= i < |rows| ==> rows[i].id !in rowIds) ==> Filter(NotListed(rowIds), rows) == rows
    ensures IsSubsequence(Filter(NotListed(rowIds), rows), rows)
  {
    if forall i :: 0 <= i < |rows| ==> rows[i].id !in rowIds {
      FilterKeepsAll(NotListed(rowIds), rows);
    }
    FilterIsSubsequence(NotListed(rowIds), rows);
  }

  /** `updateRow` overwrites the given fields of every row with the id and
      leaves every other field and row as it was. */
  lemma UpdateRowsFields(rows: seq<Row>, id: string, updates: Updates, i: nat, f: Field)
    requires i < |rows|
    ensures rows[i].id == id && f in updates ==> Get(UpdateRows(rows, id, updates)[i], f) == updates[f]
    ensures !(rows[i].id == id && f in updates) ==> Get(UpdateRows(rows, id, updates)[i], f) == Get(rows[i], f)
  {
  }

  /** An `updateRow` whose id matches no row changes nothing. */
  lemma UpdateRowsNoMatch(rows: seq<Row>, id: string, updates: Updates)
    requires forall i :: 0 <= i < |rows| ==> rows[i].id != id
    ensures UpdateRows(rows, id, updates) == rows
  {
  }

  /** An `updateRow` that does not give the row a different id keeps ids valid. */
  lemma UpdateKeepsIdsValid(rows: seq<Row>, id: string, updates: Updates)
    requires IdsValid(rows)
    requires Id in updates ==> updates[Id] == id
    ensures IdsValid(UpdateRows(rows, id, updates))
  {
    var r := UpdateRows(rows, id, updates);
    assert forall i :: 0 <= i < |rows| ==> r[i].id == rows[i].id by {
      forall i | 0 <= i < |rows| ensures r[i].id == rows[i].id {
        UpdateRowsFields(rows, id, updates, i, Id);
      }
    }
  }

  // ---------------------------------------------------------------- store

  class Store {
    var data: seq<Row>
    var sortConfig: Option<SortConfig>
    var filterConfig: FilterConfig
    var searchQuery: string

    ghost predicate Valid()
      reads this
    {
      IdsValid(data)
    }

    /** The initial state: the seed rows, no sort, no filter, no search. */
    constructor ()
      ensures data == Seed && sortConfig == None && filterConfig == NoFilter && searchQuery == ""
      ensures Valid()
    {
      data := Seed;
      sortConfig := None;
      filterConfig := NoFilter;
      searchQuery := "";
      SeedIdsValid();
    }

    /** The rows the hook returns as `data`. */
    function View(): seq<Row>
      reads this
    {
      Query.View(data, searchQuery, filterConfig, sortConfig)
    }

    /** `filteredAndSortedData`: the stages run one after another on a copy
        of `data`, and the sort works in place on that copy. */
    method FilteredAndSortedData() returns (result: seq<Row>)
      ensures result == View()
    {
      result := data;
      result := Query.SearchStage(result, searchQuery);
      result := Query.StatusStage(result, filterConfig);
      result := Query.PriorityStage(result, filterConfig);
      result := Query.SubmitterStage(result, filterConfig);
      result := Query.DateStage(result, filterConfig);
      if sortConfig.Some? {
        var narrowed := result;
        var a := new Row[|narrowed|](i requires 0 <= i < |narrowed| => narrowed[i]);
        assert a[..] == narrowed;
        Query.SortInPlace(a, sortConfig.value);
        result := a[..];
      }
    }

    method SetSortConfig(config: Option<SortConfig>)
      modifies this
      ensures sortConfig == config
      ensures data == old(data) && filterConfig == old(filterConfig) && searchQuery == old(searchQuery)
    {
      sortConfig := config;
    }

    method SetFilterConfig(config: FilterConfig)
      modifies this
      ensures filterConfig == config
      ensures data == old(data) && sortConfig == old(sortConfig) && searchQuery == old(searchQuery)
    {
      filterConfig := config;
    }

    method SetSearchQuery(query: string)
      modifies this
      ensures searchQuery == query
      ensures data == old(data) && sortConfig == old(sortConfig) && filterConfig == old(filterConfig)
    {
      searchQuery := query;
    }

    /** `addRow`: the row with a fresh id is appended and returned. */
    method AddRow(newRow: Row) returns (added: Row)
      requires AllDecimal(data)
      modifies this
      ensures added == Set(newRow, Id, NextId(old(data)))
      ensures data == old(data) + [added]
      ensures sortConfig == old(sortConfig) && filterConfig == old(filterConfig) && searchQuery == old(searchQuery)
      ensures old(Valid()) ==> Valid()
    {
      added := Set(newRow, Id, NextId(data));
      if Valid() {
        AddKeepsIdsValid(data, newRow);
      }
      data := data + [added];
    }

    /** `deleteRows`: the rows whose id is listed are dropped. */
    method DeleteRows(rowIds: seq<string>)
      modifies this
      ensures data == Filter(NotListed(rowIds), old(data))
      ensures sortConfig == old(sortConfig) && filterConfig == old(filterConfig) && searchQuery == old(searchQuery)
      ensures old(Valid()) ==> Valid()
    {
      if Valid() {
        FilterKeepsIdsValid(NotListed(rowIds), data);
      }
      data := Filter(NotListed(rowIds), data);
    }

    /** `updateRow`: the given fields of the rows with the id are overwritten. */
    method UpdateRow(id: string, updates: Updates)
      modifies this
      ensures data == UpdateRows(old(data), id, updates)
      ensures sortConfig == old(sortConfig) && filterConfig == old(filterConfig) && searchQuery == old(searchQuery)
      ensures old(Valid()) && (Id in updates ==> updates[Id] == id) ==> Valid()
    {
      if Valid() && (Id in updates ==> updates[Id] == id) {
        UpdateKeepsIdsValid(data, id, updates);
      }
      data := UpdateRows(data, id, updates);
    }

    /** `exportData`: the CSV text of the displayed rows. */
    method ExportData() returns (text: string)
      ensures text == Csv.ExportText(View())
    {
      var rows := FilteredAndSortedData();
      text := Csv.ExportText(rows);
    }

    /** `importData`: the parsed rows are appended and their number returned.
        `today` stands for the current date in `DD/MM/YYYY` form. */
    method ImportData(csvContent: string, today: string) returns (count: nat)
      requires AllDecimal(data)
      modifies this
      ensures data == old(data) + Csv.ImportRows(csvContent, MaxId(old(data)), today)
      ensures count == |data| - |old(data)|
      ensures sortConfig == old(sortConfig) && filterConfig == old(filterConfig) && searchQuery == old(searchQuery)
      ensures old(Valid()) ==> Valid()
    {
      var newRows := Csv.ImportRows(csvContent, MaxId(data), today);
      if Valid() {
        ImportKeepsIdsValid(data, csvContent, today);
      }
      data := data + newRows;
      count := |newRows|;
    }
  }

  // ------------------------------------------------------------ scenarios

  /** The seed ids are "1" to "5" in order. */
  lemma SeedIds()
    ensures |Seed| == 5
    ensures forall i :: 0 <= i < 5 ==> Seed[i].id == NatToString(i + 1)
  {
    assert NatToString(1) == "1" && NatToString(2) == "2" && NatToString(3) == "3";
    assert NatToString(4) == "4" && NatToString(5) == "5";
  }

  /** Rows numbered "1", "2", ... in order satisfy the store invariant, and
      the largest id is their number. */
  lemma NumberedIdsValid(rows: seq<Row>)
    requires forall i :: 0 <= i < |rows| ==> rows[i].id == NatToString(i + 1)
    ensures IdsValid(rows)
    ensures MaxId(rows) == |rows|
  {
    assert forall i :: 0 <= i < |rows| ==> DecimalValue(rows[i].id) == i + 1;
    if rows != [] {
      var j :| 0 <= j < |rows| && DecimalValue(rows[j].id) == MaxId(rows);
      assert DecimalValue(rows[|rows| - 1].id) <= MaxId(rows);
    }
  }

  /** The seed rows satisfy the store invariant, and the largest id is 5. */
  lemma SeedIdsValid()
    ensures IdsValid(Seed)
    ensures MaxId(Seed) == 5
  {
    SeedIds();
    NumberedIdsValid(Seed);
  }

  /** `addRow` on the seed rows gives the id "6". */
  lemma SeedNextId()
    ensures NextId(Seed) == "6"
  {
    SeedIdsValid();
    assert NatToString(6) == [DigitChar(6)];
  }

  /** The filter that keeps only high-priority rows. */
  const HighOnly: FilterConfig := FilterConfig(None, Some(["High"]), None, None)

  /** With only a priority list set, the pipeline is that one filter. */
  lemma NarrowHighOnly(s: seq<Row>)
    ensures Query.Narrow(s, "", HighOnly) == Filter(Query.PriorityPart(HighOnly), s)
  {
    FilterKeepsAll(Query.SearchPart(""), s);
    FilterKeepsAll(Query.StatusPart(HighOnly), s);
    var high := Filter(Query.PriorityPart(HighOnly), s);
    FilterKeepsAll(Query.SubmitterPart(HighOnly), high);
    FilterKeepsAll(Query.DatePart(HighOnly), high);
  }

  /** Filtering rows whose priorities are High, two others, and High keeps
      the first and the last. */
  lemma {:induction false} HighOfFive(s: seq<Row>)
    requires |s| == 5
    requires s[0].priority == "High" && s[4].priority == "High"
    requires s[1].priority != "High" && s[2].priority != "High" && s[3].priority != "High"
    ensures Filter(Query.PriorityPart(HighOnly), s) == [s[0], s[4]]
  {
    var p := Query.PriorityPart(HighOnly);
    var t := s[4..];
    assert Filter(p, t[1..]) == [];
    assert Filter(p, t) == [s[4]];
    assert s[3..][1..] == t;
    assert Filter(p, s[3..]) == [s[4]];
    assert s[2..][1..] == s[3..];
    assert Filter(p, s[2..]) == [s[4]];
    assert s[1..][1..] == s[2..];
    assert Filter(p, s[1..]) == [s[4]];
  }

  /** Sorting two rows that are out of order swaps them. */
  lemma SortSwapsPair(cfg: SortConfig, a: Row, b: Row)
    requires Query.Compare(cfg, b, a) < 0
    ensures Query.SortRows(cfg, [a, b]) == [b, a]
  {
    assert [a, b][..1] == [a];
    assert Query.SortRows(cfg, [a]) == [a] by {
      assert [a][..0] == [];
    }
  }

  /** Filtering the seed rows to priority High keeps rows 1 and 5. */
  lemma SeedHighPriority()
    ensures Query.Narrow(Seed, "", HighOnly) == [Seed[0], Seed[4]]
    ensures Seed[0].id == "1" && Seed[4].id == "5"
  {
    NarrowHighOnly(Seed);
    SeedFacts();
    HighOfFive(Seed);
  }

  /** The seed rows' ids at both ends, their priorities, and the first
      letters of the two high-priority submitters, read off the literal. */
  lemma SeedFacts()
    ensures |Seed| == 5
    ensures Seed[0].priority == "High" && Seed[4].priority == "High"
    ensures Seed[1].priority != "High" && Seed[2].priority != "High" && Seed[3].priority != "High"
    ensures Seed[0].id == "1" && Seed[4].id == "5"
    ensures Seed[0].submitter != [] && Seed[0].submitter[0] == 'M'
    ensures Seed[4].submitter != [] && Seed[4].submitter[0] == 'J'
  {
  }

  /** Sorting by submitter, ascending, moves a row whose submitter starts
      with an earlier letter in front. */
  lemma SubmitterSwap(a: Row, b: Row)
    requires a.submitter != [] && b.submitter != [] && b.submitter[0] < a.submitter[0]
    ensures Query.SortRows(SortConfig(Submitter, Asc), [a, b]) == [b, a]
  {
    assert Less(b.submitter, a.submitter);
    SortSwapsPair(SortConfig(Submitter, Asc), a, b);
  }

  /** Sorting those two rows by submitter, ascending, puts Jessica Brown
      before Max Khan. */
  lemma SeedHighBySubmitter()
    ensures Query.View(Seed, "", HighOnly, Some(SortConfig(Submitter, Asc))) == [Seed[4], Seed[0]]
  {
    SeedHighPriority();
    SeedFacts();
    SubmitterSwap(Seed[0], Seed[4]);
  }
}
