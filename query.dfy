/** The derived view of the store: search, then filters, then an optional
    stable sort (`filteredAndSortedData` in src/hooks/useSpreadsheetData.ts). */
module Query {
  import opened Wrappers
  import opened Seqs
  import opened Text
  import opened Spreadsheet

  // --------------------------------------------------------------- search

  /** The lower-cased `query` occurs in one of the five searched fields. */
  predicate MatchesSearch(row: Row, query: string)
  {
    Contains(Lower(row.jobRequest), query)
    || Contains(Lower(row.submitter), query)
    || Contains(Lower(row.assignedTo), query)
    || Contains(Lower(row.status), query)
    || Contains(Lower(row.priority), query)
  }

  /** The search step: a row passes an empty query, or matches the lower-cased one. */
  predicate SearchOk(searchQuery: string, row: Row)
  {
    searchQuery == "" || MatchesSearch(row, Lower(searchQuery))
  }

  function SearchPart(searchQuery: string): Row -> bool
  {
    row => SearchOk(searchQuery, row)
  }

  /** src/hooks/useSpreadsheetData.ts:72-81: a non-empty query keeps the rows that match it. */
  function SearchStage(rows: seq<Row>, searchQuery: string): (r: seq<Row>)
    ensures r == Filter(SearchPart(searchQuery), rows)
  {
    if searchQuery != "" then
      var query := Lower(searchQuery);
      var r := Filter((row: Row) => MatchesSearch(row, query), rows);
      FilterExt((row: Row) => MatchesSearch(row, query), SearchPart(searchQuery), rows);
      r
    else
      FilterKeepsAll(SearchPart(searchQuery), rows);
      rows
  }

  /** The search ignores the case of the query. */
  lemma SearchIgnoresQueryCase(searchQuery: string, row: Row)
    ensures SearchOk(Lower(searchQuery), row) == SearchOk(searchQuery, row)
  {
    LowerIdempotent(searchQuery);
  }

  // -------------------------------------------------------------- filters

  /** A non-empty status list admits only its members. */
  predicate StatusOk(cfg: FilterConfig, row: Row)
  {
    !(cfg.status.Some? && |cfg.status.value| > 0) || row.status in cfg.status.value
  }

  /** A non-empty priority list admits only its members. */
  predicate PriorityOk(cfg: FilterConfig, row: Row)
  {
    !(cfg.priority.Some? && |cfg.priority.value| > 0) || row.priority in cfg.priority.value
  }

  /** A non-empty submitter text must occur, ignoring case, in the submitter. */
  predicate SubmitterOk(cfg: FilterConfig, row: Row)
  {
    !(cfg.submitter.Some? && cfg.submitter.value != "")
    || Contains(Lower(row.submitter), Lower(cfg.submitter.value))
  }

  /** A calendar date as `new Date("YYYY-MM-DD")` reads it. */
  datatype Date = Date(year: nat, month: nat, day: nat)

  function Digits(s: string, from: nat, to: nat): nat
    requires from <= to <= |s|
    requires forall i :: from <= i < to ==> IsDigit(s[i])
  {
    DecimalValue(s[from..to])
  }

  /** A date `YYYY-MM-DD` can name: a four-digit year, a month in 1..12 and
      a day in 1..31. */
  predicate ValidDate(d: Date)
  {
    d.year < 10000 && 1 <= d.month <= 12 && 1 <= d.day <= 31
  }

  /** `n` in two digits, with a leading zero below 10. */
  function TwoDigits(n: nat): (r: string)
    requires n < 100
    ensures |r| == 2 && IsDigit(r[0]) && IsDigit(r[1])
  {
    [DigitChar(n / 10), DigitChar(n % 10)]
  }

  /** `n` in four digits, with leading zeros. */
  function FourDigits(n: nat): (r: string)
    requires n < 10000
    ensures |r| == 4 && forall i :: 0 <= i < 4 ==> IsDigit(r[i])
  {
    TwoDigits(n / 100) + TwoDigits(n % 100)
  }

  /** The `YYYY-MM-DD` text of a date. */
  function FormatIsoDate(d: Date): (r: string)
    requires ValidDate(d)
    ensures |r| == 10
  {
    FourDigits(d.year) + "-" + TwoDigits(d.month) + "-" + TwoDigits(d.day)
  }

  /** The value of a digit string one digit longer than `p`. */
  lemma DecimalSnoc(t: string, p: string)
    requires |t| >= 1 && p == t[..|t| - 1]
    requires forall i :: 0 <= i < |t| ==> IsDigit(t[i])
    ensures DecimalValue(t) == DecimalValue(p) * 10 + DigitValue(t[|t| - 1])
  {
  }

  lemma DecimalOfTwo(t: string)
    requires |t| == 2 && IsDigit(t[0]) && IsDigit(t[1])
    ensures DecimalValue(t) == DigitValue(t[0]) * 10 + DigitValue(t[1])
  {
    DecimalSnoc(t[..1], []);
    DecimalSnoc(t, t[..1]);
  }

  /** Four digits are worth a hundred times their first two plus their last two. */
  lemma DecimalOfFour(t: string)
    requires |t| == 4 && forall i :: 0 <= i < 4 ==> IsDigit(t[i])
    ensures DecimalValue(t) == DecimalValue(t[..2]) * 100 + DecimalValue(t[2..])
  {
    DecimalOfTwo(t[..2]);
    DecimalOfTwo(t[2..]);
    DecimalSnoc(t[..3], t[..2]);
    DecimalSnoc(t, t[..3]);
  }

  lemma TwoDigitsValue(t: string)
    requires |t| == 2 && IsDigit(t[0]) && IsDigit(t[1])
    ensures DecimalValue(t) < 100 && TwoDigits(DecimalValue(t)) == t
  {
    DecimalOfTwo(t);
  }

  lemma FourDigitsValue(t: string)
    requires |t| == 4 && forall i :: 0 <= i < 4 ==> IsDigit(t[i])
    ensures DecimalValue(t) < 10000 && FourDigits(DecimalValue(t)) == t
  {
    DecimalOfFour(t);
    TwoDigitsValue(t[..2]);
    TwoDigitsValue(t[2..]);
    var h, l := DecimalValue(t[..2]), DecimalValue(t[2..]);
    assert DecimalValue(t) / 100 == h && DecimalValue(t) % 100 == l;
    assert t == t[..2] + t[2..];
  }

  lemma ValueOfTwoDigits(n: nat)
    requires n < 100
    ensures DecimalValue(TwoDigits(n)) == n
  {
    DecimalOfTwo(TwoDigits(n));
  }

  lemma ValueOfFourDigits(n: nat)
    requires n < 10000
    ensures DecimalValue(FourDigits(n)) == n
  {
    var t := FourDigits(n);
    DecimalOfFour(t);
    assert t[..2] == TwoDigits(n / 100) && t[2..] == TwoDigits(n % 100);
    ValueOfTwoDigits(n / 100);
    ValueOfTwoDigits(n % 100);
  }

  /** The ISO date-only form `YYYY-MM-DD`; anything else is an invalid date.
      A date it reads is one `YYYY-MM-DD` can name, and printing it gives the
      text back. */
  function ParseIsoDate(s: string): (r: Option<Date>)
    ensures r.Some? ==> ValidDate(r.value) && FormatIsoDate(r.value) == s
  {
    if |s| == 10 && s[4] == '-' && s[7] == '-'
       && (forall i :: 0 <= i < 4 ==> IsDigit(s[i]))
       && IsDigit(s[5]) && IsDigit(s[6]) && IsDigit(s[8]) && IsDigit(s[9])
    then
      var d := Date(Digits(s, 0, 4), Digits(s, 5, 7), Digits(s, 8, 10));
      FourDigitsValue(s[0..4]);
      TwoDigitsValue(s[5..7]);
      TwoDigitsValue(s[8..10]);
      assert s == s[0..4] + "-" + s[5..7] + "-" + s[8..10];
      if 1 <= d.month <= 12 && 1 <= d.day <= 31 then Some(d) else None
    else None
  }

  /** Every date `YYYY-MM-DD` can name is read back from its text; with
      `ParseIsoDate`'s contract, `ParseIsoDate(s) == Some(d)` exactly when
      `d` is valid and `s` is its text. */
  lemma ParseFormatIsoDate(d: Date)
    requires ValidDate(d)
    ensures ParseIsoDate(FormatIsoDate(d)) == Some(d)
  {
    var s := FormatIsoDate(d);
    assert s[0..4] == FourDigits(d.year) && s[5..7] == TwoDigits(d.month) && s[8..10] == TwoDigits(d.day);
    ValueOfFourDigits(d.year);
    ValueOfTwoDigits(d.month);
    ValueOfTwoDigits(d.day);
  }

  /** A text is an invalid date exactly when no valid date prints as it. */
  lemma ParseIsoDateExact(s: string, d: Date)
    ensures ParseIsoDate(s) == Some(d) <==> ValidDate(d) && FormatIsoDate(d) == s
  {
    if ValidDate(d) && FormatIsoDate(d) == s {
      ParseFormatIsoDate(d);
    }
  }

  /** Chronological order of dates. */
  predicate DateLe(a: Date, b: Date)
  {
    a.year < b.year
    || (a.year == b.year && (a.month < b.month || (a.month == b.month && a.day <= b.day)))
  }

  /** `s.split('-').reverse().join('-')`: `DD-MM-YYYY` becomes `YYYY-MM-DD`. */
  function ReverseDate(s: string): string
  {
    Join(Reverse(Split(s, '-')), '-')
  }

  /** A displayed date `DD-MM-YYYY` is reversed into the ISO form. */
  lemma ReverseDisplayDate(dd: string, mm: string, yyyy: string)
    requires '-' !in dd && '-' !in mm && '-' !in yyyy
    ensures ReverseDate(dd + "-" + mm + "-" + yyyy) == yyyy + "-" + mm + "-" + dd
  {
    var parts := [dd, mm, yyyy];
    assert Join(parts, '-') == dd + "-" + mm + "-" + yyyy by {
      assert Join(parts[2..], '-') == yyyy;
      assert Join(parts[1..], '-') == mm + "-" + yyyy;
    }
    SplitJoin(parts, '-');
    var rev := Reverse(parts);
    assert rev == [yyyy, mm, dd];
    assert Join(rev[2..], '-') == dd;
    assert Join(rev[1..], '-') == mm + "-" + dd;
  }

  /** A date range admits rows whose submitted date lies within it,
      inclusive; any unparsable date makes the comparison false. */
  predicate DateOk(cfg: FilterConfig, row: Row)
  {
    cfg.dateRange.None? ||
    (var rowDate := ParseIsoDate(ReverseDate(row.submitted));
     var startDate := ParseIsoDate(cfg.dateRange.value.start);
     var endDate := ParseIsoDate(cfg.dateRange.value.end);
     rowDate.Some? && startDate.Some? && endDate.Some?
     && DateLe(startDate.value, rowDate.value) && DateLe(rowDate.value, endDate.value))
  }

  function StatusPart(cfg: FilterConfig): Row -> bool { row => StatusOk(cfg, row) }
  function PriorityPart(cfg: FilterConfig): Row -> bool { row => PriorityOk(cfg, row) }
  function SubmitterPart(cfg: FilterConfig): Row -> bool { row => SubmitterOk(cfg, row) }
  function DatePart(cfg: FilterConfig): Row -> bool { row => DateOk(cfg, row) }

  /** src/hooks/useSpreadsheetData.ts:84-86. */
  function StatusStage(rows: seq<Row>, cfg: FilterConfig): (r: seq<Row>)
    ensures r == Filter(StatusPart(cfg), rows)
  {
    if cfg.status.Some? && |cfg.status.value| > 0 then
      var r := Filter((row: Row) => row.status in cfg.status.value, rows);
      FilterExt((row: Row) => row.status in cfg.status.value, StatusPart(cfg), rows);
      r
    else
      FilterKeepsAll(StatusPart(cfg), rows);
      rows
  }

  /** src/hooks/useSpreadsheetData.ts:88-90. */
  function PriorityStage(rows: seq<Row>, cfg: FilterConfig): (r: seq<Row>)
    ensures r == Filter(PriorityPart(cfg), rows)
  {
    if cfg.priority.Some? && |cfg.priority.value| > 0 then
      var r := Filter((row: Row) => row.priority in cfg.priority.value, rows);
      FilterExt((row: Row) => row.priority in cfg.priority.value, PriorityPart(cfg), rows);
      r
    else
      FilterKeepsAll(PriorityPart(cfg), rows);
      rows
  }

  /** src/hooks/useSpreadsheetData.ts:92-96. */
  function SubmitterStage(rows: seq<Row>, cfg: FilterConfig): (r: seq<Row>)
    ensures r == Filter(SubmitterPart(cfg), rows)
  {
    if cfg.submitter.Some? && cfg.submitter.value != "" then
      var r := Filter((row: Row) => Contains(Lower(row.submitter), Lower(cfg.submitter.value)), rows);
      FilterExt((row: Row) => Contains(Lower(row.submitter), Lower(cfg.submitter.value)), SubmitterPart(cfg), rows);
      r
    else
      FilterKeepsAll(SubmitterPart(cfg), rows);
      rows
  }

  /** src/hooks/useSpreadsheetData.ts:98-106. */
  function DateStage(rows: seq<Row>, cfg: FilterConfig): (r: seq<Row>)
    ensures r == Filter(DatePart(cfg), rows)
  {
    if cfg.dateRange.Some? then
      Filter(DatePart(cfg), rows)
    else
      FilterKeepsAll(DatePart(cfg), rows);
      rows
  }

  /** Everything a row must satisfy to appear in the view. */
  predicate Keep(searchQuery: string, cfg: FilterConfig, row: Row)
  {
    SearchOk(searchQuery, row) && StatusOk(cfg, row) && PriorityOk(cfg, row)
    && SubmitterOk(cfg, row) && DateOk(cfg, row)
  }

  function KeepPart(searchQuery: string, cfg: FilterConfig): Row -> bool
  {
    row => Keep(searchQuery, cfg, row)
  }

  /** src/hooks/useSpreadsheetData.ts:69-106: the rows before sorting, in
      the order the stages run: exactly the stored rows that pass the search
      and every configured filter. */
  function Narrow(rows: seq<Row>, searchQuery: string, cfg: FilterConfig): (r: seq<Row>)
    ensures |r| <= |rows|
    ensures forall row :: row in r <==> row in rows && Keep(searchQuery, cfg, row)
  {
    DateStage(SubmitterStage(PriorityStage(StatusStage(SearchStage(rows, searchQuery), cfg), cfg), cfg), cfg)
  }

  /** The five stages amount to one order-preserving filter by their conjunction. */
  lemma NarrowIsFilter(rows: seq<Row>, searchQuery: string, cfg: FilterConfig)
    ensures Narrow(rows, searchQuery, cfg) == Filter(KeepPart(searchQuery, cfg), rows)
  {
    var p1 := SearchPart(searchQuery);
    var p12 := (row: Row) => SearchOk(searchQuery, row) && StatusOk(cfg, row);
    var p123 := (row: Row) => p12(row) && PriorityOk(cfg, row);
    var p1234 := (row: Row) => p123(row) && SubmitterOk(cfg, row);
    var p12345 := (row: Row) => p1234(row) && DateOk(cfg, row);
    FilterFuse(p1, StatusPart(cfg), p12, rows);
    FilterFuse(p12, PriorityPart(cfg), p123, rows);
    FilterFuse(p123, SubmitterPart(cfg), p1234, rows);
    FilterFuse(p1234, DatePart(cfg), p12345, rows);
    FilterExt(p12345, KeepPart(searchQuery, cfg), rows);
  }

  // ----------------------------------------------------------------- sort

  /** The comparator of lines 110-121: -1, 1 or 0 by the key's string value,
      with the signs swapped for a descending sort. */
  function Compare(cfg: SortConfig, a: Row, b: Row): (c: int)
    ensures c == -1 || c == 0 || c == 1
    ensures c == 0 <==> Get(a, cfg.key) == Get(b, cfg.key)
    ensures c < 0 <==> if cfg.direction == Asc then Less(Get(a, cfg.key), Get(b, cfg.key))
                                              else Less(Get(b, cfg.key), Get(a, cfg.key))
  {
    var aValue := Get(a, cfg.key);
    var bValue := Get(b, cfg.key);
    LessTotal(aValue, bValue);
    LessIrreflexive(aValue);
    if Less(aValue, bValue) then
      LessAsymmetric(aValue, bValue);
      if cfg.direction == Asc then -1 else 1
    else if Less(bValue, aValue) then
      if cfg.direction == Asc then 1 else -1
    else 0
  }

  lemma CompareAntisymmetric(cfg: SortConfig, a: Row, b: Row)
    ensures Compare(cfg, a, b) == -Compare(cfg, b, a)
  {
    var av, bv := Get(a, cfg.key), Get(b, cfg.key);
    if Less(av, bv) {
      LessAsymmetric(av, bv);
    } else if Less(bv, av) {
      LessAsymmetric(bv, av);
    }
  }

  lemma CompareTransitive(cfg: SortConfig, a: Row, b: Row, c: Row)
    requires Compare(cfg, a, b) <= 0 && Compare(cfg, b, c) <= 0
    ensures Compare(cfg, a, c) <= 0
  {
    var av, bv, cv := Get(a, cfg.key), Get(b, cfg.key), Get(c, cfg.key);
    if av != bv && bv != cv {
      if cfg.direction == Asc {
        LessTransitive(av, bv, cv);
      } else {
        LessTransitive(cv, bv, av);
      }
    }
  }

  /** No element is placed after one it should follow. */
  ghost predicate Sorted(cfg: SortConfig, s: seq<Row>)
  {
    forall i, j :: 0 <= i < j < |s| ==> Compare(cfg, s[i], s[j]) <= 0
  }

  /** `x` goes after every element that does not compare greater than it:
      one step of a stable insertion sort. */
  function Insert(cfg: SortConfig, t: seq<Row>, x: Row): (r: seq<Row>)
    ensures multiset(r) == multiset(t) + multiset{x}
    ensures |r| == |t| + 1
  {
    if t == [] || Compare(cfg, x, t[|t| - 1]) >= 0 then t + [x]
    else
      assert t == t[..|t| - 1] + [t[|t| - 1]];
      Insert(cfg, t[..|t| - 1], x) + [t[|t| - 1]]
  }

  /** `result.sort(comparator)`, specified as a stable insertion sort. */
  function SortRows(cfg: SortConfig, s: seq<Row>): (r: seq<Row>)
    ensures multiset(r) == multiset(s)
    ensures |r| == |s|
  {
    if s == [] then []
    else
      assert s == s[..|s| - 1] + [s[|s| - 1]];
      Insert(cfg, SortRows(cfg, s[..|s| - 1]), s[|s| - 1])
  }

  /** Appending an element that no earlier element exceeds keeps a
      sequence sorted. */
  lemma SortedSnoc(cfg: SortConfig, t: seq<Row>, x: Row)
    requires Sorted(cfg, t)
    requires forall i :: 0 <= i < |t| ==> Compare(cfg, t[i], x) <= 0
    ensures Sorted(cfg, t + [x])
  {
    var r := t + [x];
    forall i, j | 0 <= i < j < |r| ensures Compare(cfg, r[i], r[j]) <= 0 {
      assert r[i] == t[i];
      if j < |t| {
        assert r[j] == t[j];
      }
    }
  }

  lemma {:induction false} InsertSorted(cfg: SortConfig, t: seq<Row>, x: Row)
    requires Sorted(cfg, t)
    ensures Sorted(cfg, Insert(cfg, t, x))
    decreases |t|
  {
    if t == [] {
    } else if Compare(cfg, x, t[|t| - 1]) >= 0 {
      var last := t[|t| - 1];
      CompareAntisymmetric(cfg, x, last);
      forall i | 0 <= i < |t| ensures Compare(cfg, t[i], x) <= 0 {
        if i < |t| - 1 {
          CompareTransitive(cfg, t[i], last, x);
        }
      }
      SortedSnoc(cfg, t, x);
    } else {
      var last := t[|t| - 1];
      var t' := t[..|t| - 1];
      InsertSorted(cfg, t', x);
      var r' := Insert(cfg, t', x);
      assert Insert(cfg, t, x) == r' + [last];
      forall k | 0 <= k < |r'| ensures Compare(cfg, r'[k], last) <= 0 {
        var y := r'[k];
        assert y in multiset(r');
        if y != x {
          assert y in multiset(t');
          var i :| 0 <= i < |t'| && t'[i] == y;
          assert t[i] == y;
        }
      }
      SortedSnoc(cfg, r', last);
    }
  }

  lemma {:induction false} SortRowsSorted(cfg: SortConfig, s: seq<Row>)
    ensures Sorted(cfg, SortRows(cfg, s))
    decreases |s|
  {
    if s != [] {
      SortRowsSorted(cfg, s[..|s| - 1]);
      InsertSorted(cfg, SortRows(cfg, s[..|s| - 1]), s[|s| - 1]);
    }
  }

  /** The rows whose sort key equals `k`, in order. */
  function HasKey(f: Field, k: string): Row -> bool
  {
    row => Get(row, f) == k
  }

  function KeyFilter(cfg: SortConfig, k: string, s: seq<Row>): seq<Row>
  {
    Filter(HasKey(cfg.key, k), s)
  }

  /** Stability: rows with equal keys keep their relative order. */
  ghost predicate Stable(cfg: SortConfig, input: seq<Row>, output: seq<Row>)
  {
    forall k :: KeyFilter(cfg, k, output) == KeyFilter(cfg, k, input)
  }

  /** The key filter of a one-element sequence. */
  lemma KeyFilterSingle(cfg: SortConfig, k: string, x: Row)
    ensures KeyFilter(cfg, k, [x]) == if Get(x, cfg.key) == k then [x] else []
  {
    assert [x][1..] == [];
  }

  lemma {:induction false} InsertKeyFilter(cfg: SortConfig, t: seq<Row>, x: Row, k: string)
    ensures KeyFilter(cfg, k, Insert(cfg, t, x)) == KeyFilter(cfg, k, t + [x])
    decreases |t|
  {
    if t != [] && Compare(cfg, x, t[|t| - 1]) < 0 {
      var last := t[|t| - 1];
      var t' := t[..|t| - 1];
      var p := HasKey(cfg.key, k);
      var ins' := Insert(cfg, t', x);
      assert Insert(cfg, t, x) == ins' + [last];
      assert t + [x] == t' + ([last] + [x]);
      InsertKeyFilter(cfg, t', x, k);
      FilterConcat(p, ins', [last]);
      FilterConcat(p, t', [x]);
      FilterConcat(p, t', [last] + [x]);
      assert [last] + [x] == [last, x];
      FilterConcat(p, [last], [x]);
      KeyFilterSingle(cfg, k, x);
      KeyFilterSingle(cfg, k, last);
      assert Get(x, cfg.key) != Get(last, cfg.key);
      calc {
        KeyFilter(cfg, k, Insert(cfg, t, x));
        Filter(p, ins') + Filter(p, [last]);
        (Filter(p, t') + Filter(p, [x])) + Filter(p, [last]);
        Filter(p, t') + (Filter(p, [last]) + Filter(p, [x]));
        Filter(p, t') + Filter(p, [last] + [x]);
        KeyFilter(cfg, k, t + [x]);
      }
    }
  }

  lemma {:induction false} SortRowsStable(cfg: SortConfig, s: seq<Row>)
    ensures Stable(cfg, s, SortRows(cfg, s))
    decreases |s|
  {
    if s != [] {
      var s' := s[..|s| - 1];
      SortRowsStable(cfg, s');
      var x := s[|s| - 1];
      var sorted' := SortRows(cfg, s');
      assert SortRows(cfg, s) == Insert(cfg, sorted', x);
      assert s == s' + [x];
      forall k ensures KeyFilter(cfg, k, SortRows(cfg, s)) == KeyFilter(cfg, k, s) {
        InsertKeyFilter(cfg, sorted', x, k);
        FilterConcat(HasKey(cfg.key, k), sorted', [x]);
        FilterConcat(HasKey(cfg.key, k), s', [x]);
        assert KeyFilter(cfg, k, sorted') == KeyFilter(cfg, k, s');
      }
    }
  }

  lemma SortedPrefix(cfg: SortConfig, s: seq<Row>, n: nat)
    requires Sorted(cfg, s) && n <= |s|
    ensures Sorted(cfg, s[..n])
  {
    forall i, j | 0 <= i < j < n ensures Compare(cfg, s[..n][i], s[..n][j]) <= 0 {
      assert s[..n][i] == s[i] && s[..n][j] == s[j];
    }
  }

  /** In a sorted sequence, every element is at most the last one. */
  lemma SortedLast(cfg: SortConfig, s: seq<Row>, w: Row)
    requires Sorted(cfg, s) && w in s
    ensures Compare(cfg, w, s[|s| - 1]) <= 0
  {
    var i :| 0 <= i < |s| && s[i] == w;
  }

  /** Dropping the last element drops it from its own key's filter only. */
  lemma KeyFilterDropLast(cfg: SortConfig, k: string, s: seq<Row>)
    requires s != []
    ensures KeyFilter(cfg, k, s)
            == KeyFilter(cfg, k, s[..|s| - 1]) + (if Get(s[|s| - 1], cfg.key) == k then [s[|s| - 1]] else [])
  {
    assert s == s[..|s| - 1] + [s[|s| - 1]];
    FilterConcat(HasKey(cfg.key, k), s[..|s| - 1], [s[|s| - 1]]);
    KeyFilterSingle(cfg, k, s[|s| - 1]);
  }

  /** If the last key of `b` is filtered alike in `a`, it is at most the last
      element of the sorted sequence `a`. */
  lemma LastKeyBounded(cfg: SortConfig, a: seq<Row>, b: seq<Row>)
    requires a != [] && b != [] && Sorted(cfg, a)
    requires KeyFilter(cfg, Get(b[|b| - 1], cfg.key), a) == KeyFilter(cfg, Get(b[|b| - 1], cfg.key), b)
    ensures Compare(cfg, b[|b| - 1], a[|a| - 1]) <= 0
  {
    var v := b[|b| - 1];
    var kv := Get(v, cfg.key);
    assert v in b && HasKey(cfg.key, kv)(v);
    assert v in KeyFilter(cfg, kv, b);
    var w :| w in KeyFilter(cfg, kv, a);
    assert w in a && Get(w, cfg.key) == kv;
    SortedLast(cfg, a, w);
  }

  /** Two sorted sequences with the same key filters end in the same key. */
  lemma LastKeysAgree(cfg: SortConfig, a: seq<Row>, b: seq<Row>)
    requires a != [] && b != []
    requires Sorted(cfg, a) && Sorted(cfg, b)
    requires forall k :: KeyFilter(cfg, k, a) == KeyFilter(cfg, k, b)
    ensures Get(a[|a| - 1], cfg.key) == Get(b[|b| - 1], cfg.key)
  {
    var u, v := a[|a| - 1], b[|b| - 1];
    LastKeyBounded(cfg, a, b);
    LastKeyBounded(cfg, b, a);
    CompareAntisymmetric(cfg, u, v);
  }

  /** Sequences with equal key filters and the same last element still
      have equal key filters once that element is dropped. */
  lemma DropSameLast(cfg: SortConfig, k: string, a: seq<Row>, b: seq<Row>)
    requires a != [] && b != [] && a[|a| - 1] == b[|b| - 1]
    requires KeyFilter(cfg, k, a) == KeyFilter(cfg, k, b)
    ensures KeyFilter(cfg, k, a[..|a| - 1]) == KeyFilter(cfg, k, b[..|b| - 1])
  {
    var u := a[|a| - 1];
    var ka, kb := KeyFilter(cfg, k, a[..|a| - 1]), KeyFilter(cfg, k, b[..|b| - 1]);
    var tail := if Get(u, cfg.key) == k then [u] else [];
    KeyFilterDropLast(cfg, k, a);
    KeyFilterDropLast(cfg, k, b);
    assert ka + tail == kb + tail;
    assert |ka| == |kb|;
    assert (ka + tail)[..|ka|] == ka;
    assert (kb + tail)[..|kb|] == kb;
  }

  lemma FirstInOwnKeyFilter(cfg: SortConfig, s: seq<Row>)
    requires s != []
    ensures s[0] in KeyFilter(cfg, Get(s[0], cfg.key), s)
  {
  }

  /** Two sorted sequences with the same key filters end in the same element. */
  lemma LastsAgree(cfg: SortConfig, a: seq<Row>, b: seq<Row>)
    requires a != [] && b != []
    requires Sorted(cfg, a) && Sorted(cfg, b)
    requires forall k :: KeyFilter(cfg, k, a) == KeyFilter(cfg, k, b)
    ensures a[|a| - 1] == b[|b| - 1]
  {
    var u, v := a[|a| - 1], b[|b| - 1];
    LastKeysAgree(cfg, a, b);
    var k := Get(u, cfg.key);
    KeyFilterDropLast(cfg, k, a);
    KeyFilterDropLast(cfg, k, b);
    var ka, kb := KeyFilter(cfg, k, a[..|a| - 1]), KeyFilter(cfg, k, b[..|b| - 1]);
    assert KeyFilter(cfg, k, a) == KeyFilter(cfg, k, b);
    assert ka + [u] == kb + [v];
    assert |ka| == |kb|;
    assert (ka + [u])[|ka|] == u && (kb + [v])[|kb|] == v;
  }

  /** A sorted, stable rearrangement is unique: any algorithm that sorts
      stably with this comparator, as `Array.prototype.sort` does since the
      2019 edition of ECMA-262, produces `SortRows`. */
  lemma {:induction false} SortedStableUnique(cfg: SortConfig, a: seq<Row>, b: seq<Row>)
    requires Sorted(cfg, a) && Sorted(cfg, b)
    requires forall k :: KeyFilter(cfg, k, a) == KeyFilter(cfg, k, b)
    ensures a == b
    decreases |a|
  {
    if a == [] || b == [] {
      if a != [] {
        FirstInOwnKeyFilter(cfg, a);
      } else if b != [] {
        FirstInOwnKeyFilter(cfg, b);
      }
    } else {
      var a', b' := a[..|a| - 1], b[..|b| - 1];
      DropLasts(cfg, a, b, a', b');
      SortedStableUnique(cfg, a', b');
      ButLast(a);
      ButLast(b);
    }
  }

  lemma ButLast<T>(s: seq<T>)
    requires s != []
    ensures s == s[..|s| - 1] + [s[|s| - 1]]
  {
  }

  /** The induction step of `SortedStableUnique`: both sequences end in the
      same row, and what precedes it again satisfies the hypotheses. */
  lemma DropLasts(cfg: SortConfig, a: seq<Row>, b: seq<Row>, a': seq<Row>, b': seq<Row>)
    requires a != [] && b != [] && a' == a[..|a| - 1] && b' == b[..|b| - 1]
    requires Sorted(cfg, a) && Sorted(cfg, b)
    requires forall k :: KeyFilter(cfg, k, a) == KeyFilter(cfg, k, b)
    ensures a[|a| - 1] == b[|b| - 1]
    ensures Sorted(cfg, a') && Sorted(cfg, b')
    ensures forall k :: KeyFilter(cfg, k, a') == KeyFilter(cfg, k, b')
  {
    LastsAgree(cfg, a, b);
    forall k ensures KeyFilter(cfg, k, a') == KeyFilter(cfg, k, b') {
      DropSameLast(cfg, k, a, b);
    }
    SortedPrefix(cfg, a, |a| - 1);
    SortedPrefix(cfg, b, |b| - 1);
  }

  /** Splitting a sequence at `j` commutes with appending its last element. */
  lemma SplitSnoc<T>(t: seq<T>, x: T, j: nat)
    requires j < |t|
    ensures t[..|t| - 1][..j] + [x] + t[..|t| - 1][j..] + [t[|t| - 1]] == t[..j] + [x] + t[j..]
  {
    var u := t[..|t| - 1];
    assert u[..j] == t[..j];
    assert u[j..] + [t[|t| - 1]] == t[j..];
  }

  /** `Insert` puts `x` at `j` when `j` is just after the last element that
      `x` does not precede and every later element compares greater. */
  lemma {:induction false} InsertAt(cfg: SortConfig, t: seq<Row>, x: Row, j: nat)
    requires j <= |t|
    requires j == 0 || Compare(cfg, x, t[j - 1]) >= 0
    requires forall k :: j <= k < |t| ==> Compare(cfg, x, t[k]) < 0
    ensures Insert(cfg, t, x) == t[..j] + [x] + t[j..]
    decreases |t|
  {
    if j == |t| {
      assert t[..j] == t && t[j..] == [];
    } else {
      var u := t[..|t| - 1];
      var last := t[|t| - 1];
      assert Compare(cfg, x, last) < 0;
      assert Insert(cfg, t, x) == Insert(cfg, u, x) + [last];
      assert j == 0 || u[j - 1] == t[j - 1];
      assert forall k :: j <= k < |u| ==> u[k] == t[k];
      InsertAt(cfg, u, x, j);
      SplitSnoc(t, x, j);
    }
  }

  /** Sorting a prefix one element longer inserts that element into the
      sorted shorter prefix. */
  lemma SortRowsSnoc(cfg: SortConfig, s: seq<Row>, i: nat)
    requires i < |s|
    ensures SortRows(cfg, s[..i + 1]) == Insert(cfg, SortRows(cfg, s[..i]), s[i])
  {
    assert s[..i + 1][..i] == s[..i];
  }

  /** One outer step of the insertion sort, on the array's contents before
      (`pre`) and after (`post`) the pass that inserts element `i`. */
  lemma SortStep(cfg: SortConfig, s: seq<Row>, pre: seq<Row>, post: seq<Row>, i: nat)
    requires i < |s| == |pre| == |post|
    requires pre[..i] == SortRows(cfg, s[..i]) && pre[i..] == s[i..]
    requires post[..i + 1] == Insert(cfg, pre[..i], pre[i]) && post[i + 1..] == pre[i + 1..]
    ensures post[..i + 1] == SortRows(cfg, s[..i + 1]) && post[i + 1..] == s[i + 1..]
  {
    assert pre[i] == pre[i..][0] == s[i..][0] == s[i];
    assert pre[i + 1..] == pre[i..][1..] == s[i..][1..] == s[i + 1..];
    SortRowsSnoc(cfg, s, i);
  }

  /** Copying `b[j - 1]` into `b[j]` moves the gap of the shift one place left. */
  lemma ShiftStep<T>(b: seq<T>, t: seq<T>, j: nat, i: nat)
    requires 0 < j <= i < |b| && |t| == i
    requires b[..j] == t[..j] && b[j + 1..i + 1] == t[j..]
    ensures b[j := b[j - 1]][..j - 1] == t[..j - 1]
    ensures b[j := b[j - 1]][j..i + 1] == t[j - 1..]
    ensures b[j := b[j - 1]][i + 1..] == b[i + 1..]
  {
    var c := b[j := b[j - 1]];
    assert c[j..i + 1] == [b[j - 1]] + b[j + 1..i + 1];
  }

  /** Writing `x` into the gap at `j` completes the shift. */
  lemma PlaceStep<T>(b: seq<T>, t: seq<T>, x: T, j: nat, i: nat)
    requires j <= i < |b| && |t| == i
    requires b[..j] == t[..j] && b[j + 1..i + 1] == t[j..]
    ensures b[j := x][..i + 1] == t[..j] + [x] + t[j..]
    ensures b[j := x][i + 1..] == b[i + 1..]
  {
    var c := b[j := x];
    assert c[..i + 1] == c[..j] + [c[j]] + c[j + 1..i + 1];
  }

  /** One pass of the insertion sort: `a[i]` is shifted left past the
      elements before it that compare greater than it. */
  method InsertInPlace(a: array<Row>, i: nat, cfg: SortConfig)
    requires i < a.Length
    modifies a
    ensures a[..i + 1] == Insert(cfg, old(a[..i]), old(a[i]))
    ensures a[i + 1..] == old(a[i + 1..])
  {
    var x := a[i];
    ghost var t := a[..i];
    ghost var rest := a[i + 1..];
    var j := i;
    while j > 0 && Compare(cfg, x, a[j - 1]) < 0
      invariant 0 <= j <= i
      invariant a[..j] == t[..j]
      invariant a[j + 1..i + 1] == t[j..]
      invariant a[i + 1..] == rest
      invariant forall k :: j <= k < i ==> Compare(cfg, x, t[k]) < 0
    {
      ghost var b := a[..];
      assert a[j - 1] == t[j - 1];
      a[j] := a[j - 1];
      assert a[..] == b[j := b[j - 1]];
      ShiftStep(b, t, j, i);
      j := j - 1;
    }
    ghost var b := a[..];
    a[j] := x;
    assert a[..] == b[j := x];
    PlaceStep(b, t, x, j, i);
    assert j > 0 ==> a[j - 1] == t[j - 1];
    InsertAt(cfg, t, x, j);
  }

  /** `result.sort(comparator)` on an array, in place: a stable insertion sort. */
  method SortInPlace(a: array<Row>, cfg: SortConfig)
    modifies a
    ensures a[..] == SortRows(cfg, old(a[..]))
  {
    ghost var s := a[..];
    var i := 0;
    while i < a.Length
      invariant 0 <= i <= a.Length
      invariant a[..i] == SortRows(cfg, s[..i])
      invariant a[i..] == s[i..]
    {
      ghost var pre := a[..];
      InsertInPlace(a, i, cfg);
      SortStep(cfg, s, pre, a[..], i);
      i := i + 1;
    }
    assert s[..a.Length] == s && a[..a.Length] == a[..];
  }

  // ----------------------------------------------------------------- view

  /** src/hooks/useSpreadsheetData.ts:68-125: the displayed rows, exactly
      the stored rows that pass the search and every configured filter. */
  function View(rows: seq<Row>, searchQuery: string, cfg: FilterConfig, sortConfig: Option<SortConfig>): (r: seq<Row>)
    ensures |r| <= |rows|
    ensures forall row :: row in r <==> row in rows && Keep(searchQuery, cfg, row)
  {
    var narrowed := Narrow(rows, searchQuery, cfg);
    if sortConfig.Some? then
      var sorted := SortRows(sortConfig.value, narrowed);
      SameMembers(sorted, narrowed);
      sorted
    else narrowed
  }

  /** Two sequences with the same multiset have the same members. */
  lemma SameMembers(a: seq<Row>, b: seq<Row>)
    requires multiset(a) == multiset(b)
    ensures forall x :: x in a <==> x in b
  {
    forall x ensures x in a <==> x in b {
      assert x in a <==> x in multiset(a);
      assert x in b <==> x in multiset(b);
    }
  }

  /** Without a sort configuration the view keeps the stored order: it is
      the stored rows with the rejected ones dropped. */
  lemma ViewUnsorted(rows: seq<Row>, searchQuery: string, cfg: FilterConfig)
    ensures View(rows, searchQuery, cfg, None) == Filter(KeepPart(searchQuery, cfg), rows)
    ensures IsSubsequence(View(rows, searchQuery, cfg, None), rows)
  {
    NarrowIsFilter(rows, searchQuery, cfg);
    FilterIsSubsequence(KeepPart(searchQuery, cfg), rows);
  }

  /** With a sort configuration the view is a permutation of the filtered
      rows, ordered by the comparator, with equal keys in filtered order;
      and it is the only sequence with these three properties. */
  lemma ViewSorted(rows: seq<Row>, searchQuery: string, cfg: FilterConfig, sortConfig: SortConfig)
    ensures var v := View(rows, searchQuery, cfg, Some(sortConfig));
            var narrowed := Filter(KeepPart(searchQuery, cfg), rows);
            && multiset(v) == multiset(narrowed)
            && Sorted(sortConfig, v)
            && Stable(sortConfig, narrowed, v)
            && forall w :: Sorted(sortConfig, w) && Stable(sortConfig, narrowed, w) ==> w == v
  {
    NarrowIsFilter(rows, searchQuery, cfg);
    var narrowed := Filter(KeepPart(searchQuery, cfg), rows);
    var v := SortRows(sortConfig, narrowed);
    SortRowsSorted(sortConfig, narrowed);
    SortRowsStable(sortConfig, narrowed);
    forall w | Sorted(sortConfig, w) && Stable(sortConfig, narrowed, w) ensures w == v {
      SortedStableUnique(sortConfig, w, v);
    }
  }
}
