/**
 Header and row normalisation of the CSV importer (`sanitize_text_csv` and
 `load_and_process_issues`). The file itself is not read here: the records the
 CSV reader would produce are the input, the first of them being the header.
 */
module Loader {
  import opened Wrappers
  import opened Text

  /** The column configuration (`col_config`): header names of the logical fields and the grouping switch. */
  datatype ColConfig = ColConfig(
    key: string,
    customerDesc: string,
    installInstructions: string,
    fixVersionsName: string,
    issueType: Option<string>,
    useIssueTypeGrouping: bool)

  /** The four results of a successful load. */
  datatype Loaded = Loaded(
    rows: seq<seq<string>>,
    headerMap: map<string, nat>,
    fixVersionIndices: seq<nat>,
    issueTypeIndex: Option<nat>)

  /**
   The loader's result, `None` being the all-`None` sentinel, together with the
   configuration as the loader leaves it: it may switch issue-type grouping off.
   */
  datatype LoadOutcome = LoadOutcome(data: Option<Loaded>, config: ColConfig)

  /** `sanitize_text_csv`: a missing value becomes the empty string, a present one is stripped. */
  function Sanitize(text: Option<string>): (r: string)
    ensures text.None? ==> r == ""
    ensures text.Some? ==> StripOf(text.value, r)
    ensures IsTrimmed(r)
  {
    match text
    case None => ""
    case Some(t) => TrimIsStrip(t); Trim(t)
  }

  /** Some header cell, once stripped, is `name`. */
  ghost predicate NamesColumn(header: seq<string>, name: string)
  {
    exists i :: 0 <= i < |header| && Trim(header[i]) == name
  }

  /** Every cell of a row, stripped. */
  function SanitizeRow(row: seq<string>): (r: seq<string>)
    ensures |r| == |row|
    ensures forall k :: 0 <= k < |r| ==> r[k] == Trim(row[k])
  {
    seq(|row|, k requires 0 <= k < |row| => Sanitize(Some(row[k])))
  }

  /** The header loop's step: a name not seen before is sent to the new last position. */
  lemma FirstIndexStep(names: seq<string>, prev: map<string, nat>, m: map<string, nat>)
    requires |names| > 0
    requires var init := names[..|names| - 1];
             && (forall i :: 0 <= i < |init| ==> init[i] in prev)
             && (forall name :: name in prev ==> prev[name] < |init| && init[prev[name]] == name)
             && (forall name, j :: name in prev && 0 <= j < prev[name] ==> init[j] != name)
    requires var name := names[|names| - 1];
             m == if name in prev then prev else prev[name := |names| - 1]
    ensures forall i :: 0 <= i < |names| ==> names[i] in m
    ensures forall name :: name in m ==> m[name] < |names| && names[m[name]] == name
    ensures forall name, j :: name in m && 0 <= j < m[name] ==> names[j] != name
  {
    var init := names[..|names| - 1];
    var name := names[|names| - 1];
    assert forall i :: 0 <= i < |init| ==> init[i] == names[i];
    if name !in prev {
      assert forall j :: 0 <= j < |init| ==> names[j] != name by {
        forall j | 0 <= j < |init| ensures names[j] != name { assert init[j] in prev; }
      }
    }
  }

  /** Each name sent to the first position that carries it: the dictionary built by the header loop. */
  function FirstIndexMap(names: seq<string>): (m: map<string, nat>)
    ensures forall i :: 0 <= i < |names| ==> names[i] in m
    ensures forall name :: name in m ==> m[name] < |names| && names[m[name]] == name
    ensures forall name, j :: name in m && 0 <= j < m[name] ==> names[j] != name
  {
    if |names| == 0 then map[]
    else
      var prev := FirstIndexMap(names[..|names| - 1]);
      var name := names[|names| - 1];
      var m := if name in prev then prev else prev[name := |names| - 1];
      FirstIndexStep(names, prev, m);
      m
  }

  /** Header name to column index: every stripped header name, sent to the first column that carries it. */
  function HeaderMap(header: seq<string>): (m: map<string, nat>)
    ensures forall i :: 0 <= i < |header| ==> Trim(header[i]) in m
    ensures forall name :: name in m ==> m[name] < |header| && Trim(header[m[name]]) == name
    ensures forall name, j :: name in m && 0 <= j < m[name] ==> Trim(header[j]) != name
  {
    FirstIndexMap(SanitizeRow(header))
  }

  /** A name is a key of the header map exactly when some header cell strips to it. */
  lemma HeaderMapNames(header: seq<string>, name: string)
    ensures name in HeaderMap(header) <==> NamesColumn(header, name)
  {
    if name in HeaderMap(header) {
      assert Trim(header[HeaderMap(header)[name]]) == name;
    }
  }

  /** The positions of `name` in `names`, in increasing order. */
  function PositionsOf(names: seq<string>, name: string): (r: seq<nat>)
    ensures forall k :: 0 <= k < |r| ==> r[k] < |names| && names[r[k]] == name
    ensures forall i :: 0 <= i < |names| && names[i] == name ==> i in r
    ensures forall k, l :: 0 <= k < l < |r| ==> r[k] < r[l]
  {
    if |names| == 0 then []
    else
      var prev := PositionsOf(names[..|names| - 1], name);
      prev + if names[|names| - 1] == name then [|names| - 1] else []
  }

  /** The columns whose stripped header is `name`, in increasing order. */
  function ColumnsNamed(header: seq<string>, name: string): (r: seq<nat>)
    ensures forall k :: 0 <= k < |r| ==> r[k] < |header| && Trim(header[r[k]]) == name
    ensures forall i :: 0 <= i < |header| && Trim(header[i]) == name ==> i in r
    ensures forall k, l :: 0 <= k < l < |r| ==> r[k] < r[l]
  {
    PositionsOf(SanitizeRow(header), name)
  }

  /** The columns named `name` are exactly its positions, and there is one exactly when some header cell strips to it. */
  lemma ColumnsNamedExactly(header: seq<string>, name: string)
    ensures forall i :: i in ColumnsNamed(header, name) <==> 0 <= i < |header| && Trim(header[i]) == name
    ensures |ColumnsNamed(header, name)| > 0 <==> NamesColumn(header, name)
  {
    var r := ColumnsNamed(header, name);
    if |r| > 0 {
      assert Trim(header[r[0]]) == name;
    }
    if NamesColumn(header, name) {
      var i :| 0 <= i < |header| && Trim(header[i]) == name;
      assert i in r;
    }
  }

  /** The data rows that have exactly `width` cells, stripped; the other rows are dropped. */
  function KeepRows(rows: seq<seq<string>>, width: nat): (kept: seq<seq<string>>)
    ensures |kept| <= |rows|
    ensures forall r :: r in kept ==> |r| == width && forall k :: 0 <= k < |r| ==> IsTrimmed(r[k])
  {
    if |rows| == 0 then []
    else
      var rest := KeepRows(rows[1..], width);
      (if |rows[0]| == width then [SanitizeRow(rows[0])] else []) + rest
  }

  lemma RowsAssoc(a: seq<seq<string>>, b: seq<seq<string>>, c: seq<seq<string>>)
    ensures a + (b + c) == (a + b) + c
  {
  }

  /** Keeping rows works row by row: the kept rows of a concatenation are the concatenation of the kept rows. */
  lemma {:induction false} KeepRowsConcat(a: seq<seq<string>>, b: seq<seq<string>>, width: nat)
    ensures KeepRows(a + b, width) == KeepRows(a, width) + KeepRows(b, width)
    decreases |a|
  {
    if |a| == 0 {
      assert a + b == b;
    } else {
      var h := if |a[0]| == width then [SanitizeRow(a[0])] else [];
      assert (a + b)[0] == a[0];
      assert (a + b)[1..] == a[1..] + b;
      assert KeepRows(a + b, width) == h + KeepRows(a[1..] + b, width);
      KeepRowsConcat(a[1..], b, width);
      RowsAssoc(h, KeepRows(a[1..], width), KeepRows(b, width));
    }
  }

  /** A single row is kept, stripped, exactly when its width is the header's. */
  lemma KeepRowsSingle(row: seq<string>, width: nat)
    ensures |row| == width ==> KeepRows([row], width) == [SanitizeRow(row)]
    ensures |row| != width ==> KeepRows([row], width) == []
  {
    assert [row][1..] == [];
  }

  /**
   The issue-type grouping switch as the loader leaves it, and the issue-type column:
   grouping stays on only when the configured name is set, non-empty and a header name.
   */
  function IssueTypeColumn(headerMap: map<string, nat>, config: ColConfig): (r: (Option<nat>, ColConfig))
    ensures r.1 == config.(useIssueTypeGrouping := r.1.useIssueTypeGrouping)
    ensures r.1.useIssueTypeGrouping <==>
              config.useIssueTypeGrouping && config.issueType.Some? && config.issueType.value != ""
              && config.issueType.value in headerMap
    ensures r.0.Some? <==> r.1.useIssueTypeGrouping
    ensures r.0.Some? ==> r.0.value == headerMap[config.issueType.value]
  {
    if !config.useIssueTypeGrouping then (None, config)
    else if config.issueType.Some? && config.issueType.value != "" && config.issueType.value in headerMap then
      (Some(headerMap[config.issueType.value]), config)
    else
      (None, config.(useIssueTypeGrouping := false))
  }

  /** The three critical names are header names and the fix-versions name is a raw header cell. */
  function RequiredPresent(header: seq<string>, config: ColConfig): (b: bool)
    ensures b <==>
              && NamesColumn(header, config.key)
              && NamesColumn(header, config.customerDesc)
              && NamesColumn(header, config.installInstructions)
              && config.fixVersionsName in header
  {
    var headerMap := HeaderMap(header);
    HeaderMapNames(header, config.key);
    HeaderMapNames(header, config.customerDesc);
    HeaderMapNames(header, config.installInstructions);
    && config.key in headerMap
    && config.customerDesc in headerMap
    && config.installInstructions in headerMap
    && config.fixVersionsName in header
  }

  /** `load_and_process_issues` once the header has been read. */
  function Process(header: seq<string>, rows: seq<seq<string>>, config: ColConfig): (r: LoadOutcome)
    ensures r.config == IssueTypeColumn(HeaderMap(header), config).1
    ensures r.data.Some? <==> RequiredPresent(header, config) && |ColumnsNamed(header, config.fixVersionsName)| > 0
    ensures r.data.Some? ==>
              r.data.value == Loaded(KeepRows(rows, |header|), HeaderMap(header),
                                     ColumnsNamed(header, config.fixVersionsName),
                                     IssueTypeColumn(HeaderMap(header), config).0)
  {
    var headerMap := HeaderMap(header);
    var issue := IssueTypeColumn(headerMap, config);
    if !RequiredPresent(header, config) then
      LoadOutcome(None, issue.1)
    else
      var fixVersionIndices := ColumnsNamed(header, config.fixVersionsName);
      if |fixVersionIndices| == 0 then
        LoadOutcome(None, issue.1)
      else
        LoadOutcome(Some(Loaded(KeepRows(rows, |header|), headerMap, fixVersionIndices, issue.0)), issue.1)
  }

  /**
   The loader only ever switches type grouping off, and leaves it on exactly when it was on and
   the issue-type name is set, non-empty and a header name; failure or not makes no difference.
   */
  lemma ProcessConfig(header: seq<string>, rows: seq<seq<string>>, config: ColConfig)
    ensures var c := Process(header, rows, config).config;
            && c == config.(useIssueTypeGrouping := c.useIssueTypeGrouping)
            && (c.useIssueTypeGrouping <==>
                  config.useIssueTypeGrouping && config.issueType.Some? && config.issueType.value != ""
                  && NamesColumn(header, config.issueType.value))
  {
    if config.issueType.Some? {
      HeaderMapNames(header, config.issueType.value);
    }
  }

  /**
   The sentinel comes back exactly when a critical name is not a header name, or the
   fix-versions name is not a raw header cell, or no header cell strips to it.
   */
  lemma ProcessFails(header: seq<string>, rows: seq<seq<string>>, config: ColConfig)
    ensures Process(header, rows, config).data.None? <==>
              || !NamesColumn(header, config.key)
              || !NamesColumn(header, config.customerDesc)
              || !NamesColumn(header, config.installInstructions)
              || config.fixVersionsName !in header
              || !NamesColumn(header, config.fixVersionsName)
  {
    ColumnsNamedExactly(header, config.fixVersionsName);
  }

  /** A successful load hands on the non-empty list of every column whose header strips to the fix-versions name. */
  lemma ProcessFixColumns(header: seq<string>, rows: seq<seq<string>>, config: ColConfig)
    requires Process(header, rows, config).data.Some?
    ensures var d := Process(header, rows, config).data.value;
            && |d.fixVersionIndices| > 0
            && forall i :: i in d.fixVersionIndices <==> 0 <= i < |header| && Trim(header[i]) == config.fixVersionsName
  {
    ColumnsNamedExactly(header, config.fixVersionsName);
  }

  /** A successful load hands on the issue-type column exactly when type grouping stays on. */
  lemma ProcessIssueColumn(header: seq<string>, rows: seq<seq<string>>, config: ColConfig)
    requires Process(header, rows, config).data.Some?
    ensures var r := Process(header, rows, config);
            var d := r.data.value;
            && (d.issueTypeIndex.Some? <==> r.config.useIssueTypeGrouping)
            && (d.issueTypeIndex.Some? ==> d.issueTypeIndex.value == HeaderMap(header)[config.issueType.value])
  {
  }

  /**
   `load_and_process_issues` on the records the CSV reader yields. Without any record the
   reader's first `next` fails and the sentinel comes back before the configuration is
   touched; a header with no data rows after it loads successfully with no rows.
   */
  function Load(records: seq<seq<string>>, config: ColConfig): (r: LoadOutcome)
    ensures |records| == 0 ==> r.config == config
    ensures r.data.None? <==>
              || |records| == 0
              || !NamesColumn(records[0], config.key)
              || !NamesColumn(records[0], config.customerDesc)
              || !NamesColumn(records[0], config.installInstructions)
              || config.fixVersionsName !in records[0]
              || !NamesColumn(records[0], config.fixVersionsName)
    ensures |records| > 0 ==>
              && r.config == config.(useIssueTypeGrouping := r.config.useIssueTypeGrouping)
              && (r.config.useIssueTypeGrouping <==>
                    config.useIssueTypeGrouping && config.issueType.Some? && config.issueType.value != ""
                    && NamesColumn(records[0], config.issueType.value))
    ensures r.data.Some? ==>
              var d := r.data.value;
              && d.rows == KeepRows(records[1..], |records[0]|)
              && d.headerMap == HeaderMap(records[0])
              && |d.rows| < |records|
              && (forall row :: row in d.rows ==> |row| == |records[0]|)
              && (forall name :: name in d.headerMap <==> NamesColumn(records[0], name))
              && |d.fixVersionIndices| > 0
              && (forall i :: i in d.fixVersionIndices <==>
                                0 <= i < |records[0]| && Trim(records[0][i]) == config.fixVersionsName)
              && (d.issueTypeIndex.Some? <==> r.config.useIssueTypeGrouping)
              && (d.issueTypeIndex.Some? ==> d.issueTypeIndex.value == d.headerMap[config.issueType.value])
  {
    if |records| == 0 then LoadOutcome(None, config)
    else
      var header, rows := records[0], records[1..];
      ProcessFails(header, rows, config);
      ProcessConfig(header, rows, config);
      var r := Process(header, rows, config);
      if r.data.Some? then
        ProcessFixColumns(header, rows, config);
        ProcessIssueColumn(header, rows, config);
        assert forall name :: name in r.data.value.headerMap <==> NamesColumn(header, name) by {
          forall name ensures name in r.data.value.headerMap <==> NamesColumn(header, name) {
            HeaderMapNames(header, name);
          }
        }
        r
      else
        r
  }

  /**
   The fix-versions test compares the configured name with the raw header cells, the index
   collection with the stripped ones; together they accept exactly a trimmed name that is
   also a raw header cell.
   */
  lemma FixVersionsAccepted(header: seq<string>, name: string)
    ensures (name in header && NamesColumn(header, name)) <==> (name in header && IsTrimmed(name))
  {
    if name in header && IsTrimmed(name) {
      var i :| 0 <= i < |header| && header[i] == name;
      TrimOfTrimmed(name);
    }
  }

  /** A file holding only the header loads successfully, with no rows, when the header passes the checks. */
  lemma HeaderOnlyLoads(header: seq<string>, config: ColConfig)
    requires Load([header], config).data.Some?
    ensures Load([header], config).data.value.rows == []
  {
    assert [header][1..] == [];
  }

  /**
   A fix-versions header cell with leading blanks is found in the header map under its
   stripped name, yet when no cell carries the name exactly the raw-header test rejects the file.
   */
  lemma PaddedFixVersionsHeaderRejected(header: seq<string>, rows: seq<seq<string>>, config: ColConfig,
                                        i: nat, pad: string)
    requires i < |header| && header[i] == pad + config.fixVersionsName
    requires AllSpace(pad) && IsTrimmed(config.fixVersionsName)
    requires config.fixVersionsName !in header
    ensures config.fixVersionsName in HeaderMap(header)
    ensures Process(header, rows, config).data.None?
  {
    var name := config.fixVersionsName;
    assert header[i] == pad + name + "";
    TrimPadded(pad, name, "");
    ProcessFails(header, rows, config);
  }
}
