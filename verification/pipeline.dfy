/**
 The loader and the grouping engine together, as main.py means to chain them: the rows,
 header map, fix-version indices and issue-type index of a successful load, and the
 configuration as the loader left it, go to the grouping engine.
 */
module Pipeline {
  import opened Wrappers
  import opened Tasks
  import opened Loader
  import opened Grouping

  /** The grouping of what a load produced, with the configuration as the loader left it. */
  function GroupLoaded(out: LoadOutcome): Option<Grouped>
    requires out.data.Some?
  {
    var d := out.data.value;
    Group(d.rows, d.headerMap, out.config, d.fixVersionIndices, d.issueTypeIndex)
  }

  /** After a successful load the grouping never fails, and it is typed exactly when the loader left type grouping on. */
  lemma LoadedGroupingSucceeds(records: seq<seq<string>>, config: ColConfig)
    requires Load(records, config).data.Some?
    ensures var out := Load(records, config);
            && GroupLoaded(out).Some?
            && (GroupLoaded(out).value.ByType? <==> out.config.useIssueTypeGrouping)
  {
    var header, rows := records[0], records[1..];
    ProcessFails(header, rows, config);
    ProcessConfig(header, rows, config);
    ProcessIssueColumn(header, rows, config);
    HeaderMapNames(header, config.key);
  }

  /** Every row a load keeps is as wide as the header, and every header-map index lies inside it. */
  lemma LoadedRowsWide(records: seq<seq<string>>, config: ColConfig, i: nat, name: string)
    requires Load(records, config).data.Some?
    requires i < |Load(records, config).data.value.rows|
    requires name in Load(records, config).data.value.headerMap
    ensures var d := Load(records, config).data.value;
            d.headerMap[name] < |d.rows[i]|
  {
    var header, rows := records[0], records[1..];
    var d := Load(records, config).data.value;
    assert d.rows[i] in KeepRows(rows, |header|);
  }

  /**
   After a successful load no task falls back to a generated key: the key and the two
   description columns lie inside every kept row, and the task copies their cells.
   */
  lemma LoadedRowsKeepTheirKeys(records: seq<seq<string>>, config: ColConfig, i: nat)
    requires Load(records, config).data.Some?
    requires i < |Load(records, config).data.value.rows|
    ensures var out := Load(records, config);
            var d := out.data.value;
            var cols := ColumnsOf(d.headerMap, out.config, d.fixVersionIndices, d.issueTypeIndex);
            var row := d.rows[i];
            && cols.Some?
            && PlaceRow(row, i, cols.value).task
               == Task(row[d.headerMap[config.key]], row[d.headerMap[config.customerDesc]],
                       row[d.headerMap[config.installInstructions]])
  {
    var header, rows := records[0], records[1..];
    var out := Load(records, config);
    var d := out.data.value;
    ProcessFails(header, rows, config);
    ProcessConfig(header, rows, config);
    HeaderMapNames(header, config.key);
    HeaderMapNames(header, config.customerDesc);
    HeaderMapNames(header, config.installInstructions);
    LoadedRowsWide(records, config, i, config.key);
    LoadedRowsWide(records, config, i, config.customerDesc);
    LoadedRowsWide(records, config, i, config.installInstructions);
    TaskOfWideRow(d.rows[i], i, d.headerMap, out.config, d.fixVersionIndices, d.issueTypeIndex);
  }
}
