/** The filter dialog (src/components/modals/FilterModal.tsx): form state
    seeded from the current filter, two list toggles, and the config it
    applies. The dialog is mounted once, closed, with the page; its state is
    seeded at that mount and survives closing and reopening. `isOpen` stands
    for the parent's flag that `onClose` clears. */
module FilterModal {
  import opened Wrappers
  import opened Seqs
  import opened Text
  import opened Spreadsheet
  import Query

  /** What `handleApply` can produce: no empty list, and a submitter that is
      non-blank with no surrounding whitespace; a date range has both ends.
      Every part such a config sets is a filter that takes effect: the
      pipeline's "empty means no filter" case never applies to it. */
  predicate Applicable(cfg: FilterConfig): (r: bool)
    ensures r && cfg.status.Some? ==>
      forall row :: Query.StatusOk(cfg, row) <==> row.status in cfg.status.value
    ensures r && cfg.priority.Some? ==>
      forall row :: Query.PriorityOk(cfg, row) <==> row.priority in cfg.priority.value
    ensures r && cfg.submitter.Some? ==>
      forall row :: Query.SubmitterOk(cfg, row) <==> Contains(Lower(row.submitter), Lower(cfg.submitter.value))
  {
    (cfg.status.Some? ==> |cfg.status.value| > 0)
    && (cfg.priority.Some? ==> |cfg.priority.value| > 0)
    && (cfg.submitter.Some? ==> cfg.submitter.value != "" && Trim(cfg.submitter.value) == cfg.submitter.value)
    && (cfg.dateRange.Some? ==> cfg.dateRange.value.start != "" && cfg.dateRange.value.end != "")
  }

  /** The body of `handleApply`: starting from `{}`, each part is set only
      when the form holds a value for it, the submitter trimmed. */
  method BuildConfig(status: seq<string>, priority: seq<string>, submitter: string, dateRange: DateRange)
    returns (config: FilterConfig)
    ensures config.status == (if |status| > 0 then Some(status) else None)
    ensures config.priority == (if |priority| > 0 then Some(priority) else None)
    ensures config.submitter == (if Trim(submitter) != "" then Some(Trim(submitter)) else None)
    ensures config.dateRange == (if dateRange.start != "" && dateRange.end != "" then Some(dateRange) else None)
    ensures Applicable(config)
  {
    config := NoFilter;
    if |status| > 0 {
      config := config.(status := Some(status));
    }
    if |priority| > 0 {
      config := config.(priority := Some(priority));
    }
    var trimmed := Trim(submitter);
    if trimmed != "" {
      TrimIdempotent(submitter);
      config := config.(submitter := Some(trimmed));
    }
    if dateRange.start != "" && dateRange.end != "" {
      config := config.(dateRange := Some(dateRange));
    }
  }

  class FilterForm {
    var status: seq<string>
    var priority: seq<string>
    var submitter: string
    var dateRange: DateRange
    var isOpen: bool

    /** Mounted with the page, closed; the form starts from the filter
        current at that moment, with `[]`, `[]`, `''` and an empty range for
        the parts it does not set. */
    constructor (currentFilter: FilterConfig)
      ensures status == currentFilter.status.GetOr([])
      ensures priority == currentFilter.priority.GetOr([])
      ensures submitter == currentFilter.submitter.GetOr("")
      ensures dateRange == currentFilter.dateRange.GetOr(DateRange("", ""))
      ensures !isOpen
    {
      status := currentFilter.status.GetOr([]);
      priority := currentFilter.priority.GetOr([]);
      submitter := currentFilter.submitter.GetOr("");
      dateRange := currentFilter.dateRange.GetOr(DateRange("", ""));
      isOpen := false;
    }

    /** The parent shows the dialog; the form is not reseeded, so edits not
        applied before are still there. */
    method Open()
      modifies this
      ensures isOpen
      ensures status == old(status) && priority == old(priority) && submitter == old(submitter)
      ensures dateRange == old(dateRange)
    {
      isOpen := true;
    }

    /** The close and cancel buttons: `onClose` without touching the form. */
    method Close()
      modifies this
      ensures !isOpen
      ensures status == old(status) && priority == old(priority) && submitter == old(submitter)
      ensures dateRange == old(dateRange)
    {
      isOpen := false;
    }

    /** `handleStatusChange` */
    method HandleStatusChange(value: string)
      modifies this
      ensures status == Toggle(old(status), value)
      ensures priority == old(priority) && submitter == old(submitter) && dateRange == old(dateRange)
      ensures isOpen == old(isOpen)
    {
      status := Toggle(status, value);
    }

    /** `handlePriorityChange` */
    method HandlePriorityChange(value: string)
      modifies this
      ensures priority == Toggle(old(priority), value)
      ensures status == old(status) && submitter == old(submitter) && dateRange == old(dateRange)
      ensures isOpen == old(isOpen)
    {
      priority := Toggle(priority, value);
    }

    /** Typing in the submitter box and the two date inputs. */
    method SetSubmitter(value: string)
      modifies this
      ensures submitter == value
      ensures status == old(status) && priority == old(priority) && dateRange == old(dateRange)
      ensures isOpen == old(isOpen)
    {
      submitter := value;
    }

    method SetDateRange(range: DateRange)
      modifies this
      ensures dateRange == range
      ensures status == old(status) && priority == old(priority) && submitter == old(submitter)
      ensures isOpen == old(isOpen)
    {
      dateRange := range;
    }

    /** `handleApply`: the config is built from the form and handed to
        `onFilter`; the dialog closes. */
    method HandleApply() returns (config: FilterConfig)
      modifies this
      ensures config.status == (if |status| > 0 then Some(status) else None)
      ensures config.priority == (if |priority| > 0 then Some(priority) else None)
      ensures config.submitter == (if Trim(submitter) != "" then Some(Trim(submitter)) else None)
      ensures config.dateRange == (if dateRange.start != "" && dateRange.end != "" then Some(dateRange) else None)
      ensures Applicable(config)
      ensures !isOpen
      ensures status == old(status) && priority == old(priority) && submitter == old(submitter)
      ensures dateRange == old(dateRange)
    {
      var s, p, t, d := status, priority, submitter, dateRange;
      config := BuildConfig(s, p, t, d);
      isOpen := false;
      assert status == s && priority == p && submitter == t && dateRange == d;
    }

    /** `handleClear`: the form is emptied, `{}` is applied and the dialog
        closes. */
    method HandleClear() returns (config: FilterConfig)
      modifies this
      ensures config == NoFilter
      ensures status == [] && priority == [] && submitter == "" && dateRange == DateRange("", "")
      ensures !isOpen
    {
      status := [];
      priority := [];
      submitter := "";
      dateRange := DateRange("", "");
      config := NoFilter;
      isOpen := false;
    }
  }

  /** The config applied after clearing keeps every row that the search
      keeps. */
  lemma ClearedKeepsAll(rows: seq<Row>, searchQuery: string)
    ensures Query.Narrow(rows, searchQuery, NoFilter) == Query.SearchStage(rows, searchQuery)
  {
    var s := Query.SearchStage(rows, searchQuery);
    FilterKeepsAll(Query.StatusPart(NoFilter), s);
    FilterKeepsAll(Query.PriorityPart(NoFilter), s);
    FilterKeepsAll(Query.SubmitterPart(NoFilter), s);
    FilterKeepsAll(Query.DatePart(NoFilter), s);
  }

  /** Dropping empty lists and a blank submitter, as `handleApply` does,
      does not change which rows the pipeline keeps. */
  lemma AppliedFiltersLikeForm(rows: seq<Row>, searchQuery: string, status: seq<string>,
                              priority: seq<string>, range: Option<DateRange>)
    ensures Query.Narrow(rows, searchQuery, FilterConfig(Some(status), Some(priority), None, range))
         == Query.Narrow(rows, searchQuery, FilterConfig(
              if |status| > 0 then Some(status) else None,
              if |priority| > 0 then Some(priority) else None, None, range))
  {
    var raw := FilterConfig(Some(status), Some(priority), None, range);
    var applied := FilterConfig(if |status| > 0 then Some(status) else None,
                                if |priority| > 0 then Some(priority) else None, None, range);
    var s := Query.SearchStage(rows, searchQuery);
    FilterExt(Query.StatusPart(raw), Query.StatusPart(applied), s);
    var s1 := Query.StatusStage(s, raw);
    assert s1 == Query.StatusStage(s, applied);
    FilterExt(Query.PriorityPart(raw), Query.PriorityPart(applied), s1);
    var s2 := Query.PriorityStage(s1, raw);
    assert s2 == Query.PriorityStage(s1, applied);
    FilterExt(Query.SubmitterPart(raw), Query.SubmitterPart(applied), s2);
    var s3 := Query.SubmitterStage(s2, raw);
    assert s3 == Query.SubmitterStage(s2, applied);
    FilterExt(Query.DatePart(raw), Query.DatePart(applied), s3);
  }
}
