/**
 The grouping engine (`group_issues_by_version_and_type`): every row whose fix-version
 cells carry microservice version tokens contributes one task record to the bucket of
 each distinct such token, under an issue-type sub-key when type grouping is on, and
 every bucket is finally sorted by task key.

 The buckets are built by the same left-to-right appends as
 `group_issues_by_version_and_type` (`CollectFlat`, `CollectTyped`) and are related to a
 per-bucket reference definition, the tasks of the carrying rows in row order
 (`Contributions`, `TypedContributions`).
 */
module Grouping {
  import opened Wrappers
  import opened Text
  import opened VersionPattern
  import opened Tasks
  import opened FixVersions
  import opened Loader

  /** The sub-key when type grouping is off. */
  const DefaultIssueType: string := "Задачи"
  /** The sub-key of a row whose issue-type cell is missing or empty. */
  const MissingIssueType: string := "Не указан тип"

  /** The result: buckets keyed by version, or by version and then issue type. */
  datatype Grouped =
    | Flat(buckets: map<string, seq<Task>>)
    | ByType(typed: map<string, map<string, seq<Task>>>)

  /** The column indices the engine works with; `issueType` is present exactly when type grouping is on. */
  datatype Columns = Columns(
    key: nat,
    custDesc: Option<nat>,
    installInstr: Option<nat>,
    fixVersions: seq<nat>,
    issueType: Option<nat>)

  /** What one row adds: its distinct matching versions, its task record and its issue-type sub-key. */
  datatype Placement = Placement(versions: seq<string>, task: Task, issueType: string)

  predicate NoDup(s: seq<string>)
  {
    forall i, j :: 0 <= i < j < |s| ==> s[i] != s[j]
  }

  /** Without duplicates, the head does not recur and the tail has no duplicates either. */
  lemma NoDupTail(s: seq<string>)
    requires |s| > 0 && NoDup(s)
    ensures s[0] !in s[1..] && NoDup(s[1..])
  {
    forall j | 0 <= j < |s[1..]| ensures s[1..][j] != s[0] { assert s[1..][j] == s[j + 1]; }
    forall i, j | 0 <= i < j < |s[1..]| ensures s[1..][i] != s[1..][j] {
      assert s[1..][i] == s[i + 1] && s[1..][j] == s[j + 1];
    }
  }

  /** `dict.get`. */
  function Lookup(m: map<string, nat>, name: string): (r: Option<nat>)
    ensures r.Some? <==> name in m
    ensures r.Some? ==> r.value == m[name]
  {
    if name in m then Some(m[name]) else None
  }

  /** The non-empty strings of `s`, in order. */
  function NonEmpty(s: seq<string>): (r: seq<string>)
    ensures forall x :: x in r <==> x in s && x != ""
  {
    if |s| == 0 then []
    else
      assert forall x :: x in s <==> x == s[0] || x in s[1..];
      (if s[0] != "" then [s[0]] else []) + NonEmpty(s[1..])
  }

  /** Each string of `s` once, at its first occurrence. */
  function Distinct(s: seq<string>): (r: seq<string>)
    ensures NoDup(r)
    ensures forall x :: x in r <==> x in s
  {
    if |s| == 0 then []
    else
      var d := Distinct(s[..|s| - 1]);
      var x := s[|s| - 1];
      assert forall y :: y in s <==> y in s[..|s| - 1] || y == x;
      if x in d then d else d + [x]
  }

  /** The strings of `s` the version pattern matches, in order. */
  function Matching(s: seq<string>): (r: seq<string>)
    ensures forall x :: x in r <==> x in s && IsMicroserviceVersion(x)
    ensures NoDup(s) ==> NoDup(r)
  {
    if |s| == 0 then []
    else
      var rest := Matching(s[1..]);
      assert forall x :: x in s <==> x == s[0] || x in s[1..];
      assert NoDup(s) ==> s[0] !in s[1..] && NoDup(s[1..]) by {
        if NoDup(s) { NoDupTail(s); }
      }
      (if IsMicroserviceVersion(s[0]) then [s[0]] else []) + rest
  }

  /**
   The row's version tokens: the stripped comma pieces of its non-empty fix-version
   cells, empty pieces dropped. Filtering the concatenation is filtering each cell.
   */
  function RowTokens(row: seq<string>, fixIdx: seq<nat>): seq<string>
  {
    NonEmpty(RowVersions(row, fixIdx))
  }

  /** A token is a non-empty stripped comma piece of a non-empty fix-version cell. */
  lemma RowTokensExactly(row: seq<string>, fixIdx: seq<nat>, v: string)
    ensures v in RowTokens(row, fixIdx) <==> v != "" && IsRowVersion(row, fixIdx, v)
  {
    RowVersionsExactly(row, fixIdx, v);
  }

  /** The row's distinct tokens that match the version pattern. */
  function MicroserviceVersions(row: seq<string>, fixIdx: seq<nat>): (r: seq<string>)
    ensures NoDup(r)
    ensures forall v :: v in r <==> v in RowTokens(row, fixIdx) && IsMicroserviceVersion(v)
  {
    Matching(Distinct(RowTokens(row, fixIdx)))
  }

  /** A version the row files its task under: a matching token of one of its fix-version cells. */
  lemma MicroserviceVersionsExactly(row: seq<string>, fixIdx: seq<nat>, v: string)
    ensures v in MicroserviceVersions(row, fixIdx) <==> IsMicroserviceVersion(v) && IsRowVersion(row, fixIdx, v)
  {
    RowTokensExactly(row, fixIdx, v);
  }

  /** A cell copied into the task record: the cell when the column is known, inside the row and not empty, else empty. */
  function CellOrEmpty(row: seq<string>, idx: Option<nat>): (r: string)
    ensures idx.Some? && idx.value < |row| ==> r == row[idx.value]
    ensures idx.None? || idx.value >= |row| ==> r == ""
  {
    if idx.Some? && idx.value < |row| && row[idx.value] != "" then row[idx.value] else ""
  }

  /** The issue-type sub-key of a row under type grouping. */
  function IssueTypeOf(row: seq<string>, idx: nat): (r: string)
    ensures idx < |row| && row[idx] != "" ==> StripOf(row[idx], r)
    ensures !(idx < |row| && row[idx] != "") ==> r == MissingIssueType
  {
    if idx < |row| && row[idx] != "" then TrimIsStrip(row[idx]); Trim(row[idx]) else MissingIssueType
  }

  /** The key given to a row whose key column lies beyond its end; rows are numbered from one. */
  function FallbackKey(rowNum: nat): string
  {
    "ROW_" + Decimal(rowNum + 1) + "_NO_KEY"
  }

  /** The task record, versions and sub-key of the row at position `rowNum`. */
  function PlaceRow(row: seq<string>, rowNum: nat, cols: Columns): (p: Placement)
    ensures p.versions == MicroserviceVersions(row, cols.fixVersions)
    ensures cols.key < |row| ==> p.task.key == row[cols.key]
    ensures cols.key >= |row| ==> p.task.key == FallbackKey(rowNum)
    ensures p.task.custDesc == CellOrEmpty(row, cols.custDesc)
    ensures p.task.installInstr == CellOrEmpty(row, cols.installInstr)
    ensures cols.issueType.None? ==> p.issueType == DefaultIssueType
    ensures cols.issueType.Some? ==> p.issueType == IssueTypeOf(row, cols.issueType.value)
  {
    var key := if cols.key < |row| then row[cols.key] else FallbackKey(rowNum);
    var task := Task(key, CellOrEmpty(row, cols.custDesc), CellOrEmpty(row, cols.installInstr));
    var issueType := match cols.issueType
      case None => DefaultIssueType
      case Some(i) => IssueTypeOf(row, i);
    Placement(MicroserviceVersions(row, cols.fixVersions), task, issueType)
  }

  /** One placement per row, in row order. */
  function Placements(rows: seq<seq<string>>, cols: Columns): (ps: seq<Placement>)
    ensures |ps| == |rows|
    ensures forall i :: 0 <= i < |rows| ==> ps[i] == PlaceRow(rows[i], i, cols)
    ensures WellFormed(ps)
  {
    seq(|rows|, i requires 0 <= i < |rows| => PlaceRow(rows[i], i, cols))
  }

  /** Appending a row appends its placement. */
  lemma PlacementsSnoc(rows: seq<seq<string>>, row: seq<string>, cols: Columns)
    ensures Placements(rows + [row], cols) == Placements(rows, cols) + [PlaceRow(row, |rows|, cols)]
  {
    var rows' := rows + [row];
    var a, b := Placements(rows', cols), Placements(rows, cols) + [PlaceRow(row, |rows|, cols)];
    assert |a| == |b|;
    forall i | 0 <= i < |a| ensures a[i] == b[i] {
      assert a[i] == PlaceRow(rows'[i], i, cols);
      if i < |rows| {
        assert rows'[i] == rows[i];
        assert b[i] == Placements(rows, cols)[i];
      } else {
        assert rows'[i] == row;
      }
    }
  }

  /** Some placement files under `v`. */
  ghost predicate Carried(ps: seq<Placement>, v: string)
  {
    exists i :: 0 <= i < |ps| && v in ps[i].versions
  }

  /** Some placement files under `v` with sub-key `ty`. */
  ghost predicate CarriedAs(ps: seq<Placement>, v: string, ty: string)
  {
    exists i :: 0 <= i < |ps| && v in ps[i].versions && ps[i].issueType == ty
  }

  lemma CarriedSnoc(ps: seq<Placement>, v: string, ty: string)
    requires |ps| > 0
    ensures var init, last := ps[..|ps| - 1], ps[|ps| - 1];
            && (Carried(ps, v) <==> Carried(init, v) || v in last.versions)
            && (CarriedAs(ps, v, ty) <==> CarriedAs(init, v, ty) || (v in last.versions && last.issueType == ty))
  {
    var init := ps[..|ps| - 1];
    if Carried(ps, v) {
      var i :| 0 <= i < |ps| && v in ps[i].versions;
      if i < |init| { assert init[i] == ps[i]; }
    }
    if Carried(init, v) {
      var i :| 0 <= i < |init| && v in init[i].versions;
      assert ps[i] == init[i];
    }
    if CarriedAs(ps, v, ty) {
      var i :| 0 <= i < |ps| && v in ps[i].versions && ps[i].issueType == ty;
      if i < |init| { assert init[i] == ps[i]; }
    }
    if CarriedAs(init, v, ty) {
      var i :| 0 <= i < |init| && v in init[i].versions && init[i].issueType == ty;
      assert ps[i] == init[i];
    }
  }

  /** Reference definition of a flat bucket: the task of every placement filed under `v`, in row order. */
  function Contributions(ps: seq<Placement>, v: string): seq<Task>
  {
    if |ps| == 0 then []
    else
      var last := ps[|ps| - 1];
      Contributions(ps[..|ps| - 1], v) + if v in last.versions then [last.task] else []
  }

  /** Reference definition of a typed bucket: the task of every placement filed under `v` and `ty`, in row order. */
  function TypedContributions(ps: seq<Placement>, v: string, ty: string): seq<Task>
  {
    if |ps| == 0 then []
    else
      var last := ps[|ps| - 1];
      TypedContributions(ps[..|ps| - 1], v, ty) + if v in last.versions && last.issueType == ty then [last.task] else []
  }

  /** The list under `k`, empty when the key is absent, as a `defaultdict(list)` reads. */
  function Bucket(g: map<string, seq<Task>>, k: string): seq<Task>
  {
    if k in g then g[k] else []
  }

  function TypedBucket(g: map<string, map<string, seq<Task>>>, k: string, ty: string): seq<Task>
  {
    if k in g && ty in g[k] then g[k][ty] else []
  }

  /** The inner loop without type grouping: append the task to the bucket of every version. */
  function AddFlat(g: map<string, seq<Task>>, versions: seq<string>, t: Task): (r: map<string, seq<Task>>)
    requires NoDup(versions)
    ensures forall k :: k in r <==> k in g || k in versions
    ensures forall k :: Bucket(r, k) == Bucket(g, k) + if k in versions then [t] else []
    decreases |versions|
  {
    if |versions| == 0 then g
    else
      var v := versions[0];
      assert forall k :: k in versions <==> k == v || k in versions[1..];
      NoDupTail(versions);
      AddFlat(g[v := Bucket(g, v) + [t]], versions[1..], t)
  }

  /** One append under version `v` and sub-key `ty`, creating either level when missing. */
  function PutTyped(g: map<string, map<string, seq<Task>>>, v: string, ty: string, t: Task)
    : (r: map<string, map<string, seq<Task>>>)
    ensures forall k :: k in r <==> k in g || k == v
    ensures forall k, ty' :: k in r ==> (ty' in r[k] <==> (k in g && ty' in g[k]) || (k == v && ty' == ty))
    ensures forall k, ty' :: TypedBucket(r, k, ty') == TypedBucket(g, k, ty') + if k == v && ty' == ty then [t] else []
  {
    var inner := if v in g then g[v] else map[];
    g[v := inner[ty := (if ty in inner then inner[ty] else []) + [t]]]
  }

  /** The inner loop with type grouping: append the task under every version and the row's sub-key. */
  function AddTyped(g: map<string, map<string, seq<Task>>>, versions: seq<string>, ty: string, t: Task)
    : (r: map<string, map<string, seq<Task>>>)
    requires NoDup(versions)
    ensures forall k :: k in r <==> k in g || k in versions
    ensures forall k, ty' :: k in r ==> (ty' in r[k] <==> (k in g && ty' in g[k]) || (k in versions && ty' == ty))
    ensures forall k, ty' :: TypedBucket(r, k, ty') == TypedBucket(g, k, ty') + if k in versions && ty' == ty then [t] else []
    decreases |versions|
  {
    if |versions| == 0 then g
    else
      var v := versions[0];
      NoDupTail(versions);
      var g' := PutTyped(g, v, ty, t);
      var r := AddTyped(g', versions[1..], ty, t);
      AddTypedStepKeys(g, g', r, versions, ty);
      AddTypedStepBuckets(g, g', r, versions, ty, t);
      r
  }

  /** Appending under the first version and then under the rest creates the keys and sub-keys of every version. */
  lemma AddTypedStepKeys(g: map<string, map<string, seq<Task>>>, g': map<string, map<string, seq<Task>>>,
                         r: map<string, map<string, seq<Task>>>, versions: seq<string>, ty: string)
    requires |versions| > 0
    requires forall k :: k in g' <==> k in g || k == versions[0]
    requires forall k, ty' :: k in g' ==> (ty' in g'[k] <==> (k in g && ty' in g[k]) || (k == versions[0] && ty' == ty))
    requires forall k :: k in r <==> k in g' || k in versions[1..]
    requires forall k, ty' :: k in r ==> (ty' in r[k] <==> (k in g' && ty' in g'[k]) || (k in versions[1..] && ty' == ty))
    ensures forall k :: k in r <==> k in g || k in versions
    ensures forall k, ty' :: k in r ==> (ty' in r[k] <==> (k in g && ty' in g[k]) || (k in versions && ty' == ty))
  {
    assert forall k :: k in versions <==> k == versions[0] || k in versions[1..];
  }

  /** Appending under the first version and then under the rest appends under every version once. */
  lemma AddTypedStepBuckets(g: map<string, map<string, seq<Task>>>, g': map<string, map<string, seq<Task>>>,
                            r: map<string, map<string, seq<Task>>>, versions: seq<string>, ty: string, t: Task)
    requires |versions| > 0 && versions[0] !in versions[1..]
    requires forall k, ty' :: TypedBucket(g', k, ty') == TypedBucket(g, k, ty') + if k == versions[0] && ty' == ty then [t] else []
    requires forall k, ty' :: TypedBucket(r, k, ty') == TypedBucket(g', k, ty') + if k in versions[1..] && ty' == ty then [t] else []
    ensures forall k, ty' :: TypedBucket(r, k, ty') == TypedBucket(g, k, ty') + if k in versions && ty' == ty then [t] else []
  {
    forall k, ty' ensures TypedBucket(r, k, ty') == TypedBucket(g, k, ty') + if k in versions && ty' == ty then [t] else [] {
      assert k in versions <==> k == versions[0] || k in versions[1..];
      if k == versions[0] && ty' == ty {
        assert TypedBucket(r, k, ty') == TypedBucket(g', k, ty');
      }
    }
  }


  /** The placements have duplicate-free version lists, as rows always do. */
  predicate WellFormed(ps: seq<Placement>)
  {
    forall i :: 0 <= i < |ps| ==> NoDup(ps[i].versions)
  }

  /** The row loop without type grouping: the buckets are exactly the carried versions, each holding its contributions. */
  function CollectFlat(ps: seq<Placement>): (g: map<string, seq<Task>>)
    requires WellFormed(ps)
    ensures forall k :: k in g <==> Carried(ps, k)
    ensures forall k :: Bucket(g, k) == Contributions(ps, k)
  {
    if |ps| == 0 then map[]
    else
      var last := ps[|ps| - 1];
      var prev := CollectFlat(ps[..|ps| - 1]);
      var g := AddFlat(prev, last.versions, last.task);
      assert forall k :: k in g <==> Carried(ps, k) by {
        forall k ensures k in g <==> Carried(ps, k) { CarriedSnoc(ps, k, ""); }
      }
      g
  }

  /** The row loop with type grouping: the buckets and sub-keys are exactly the carried ones, each holding its contributions. */
  function CollectTyped(ps: seq<Placement>): (g: map<string, map<string, seq<Task>>>)
    requires WellFormed(ps)
    ensures forall k :: k in g <==> Carried(ps, k)
    ensures forall k, ty :: k in g ==> (ty in g[k] <==> CarriedAs(ps, k, ty))
    ensures forall k, ty :: TypedBucket(g, k, ty) == TypedContributions(ps, k, ty)
  {
    if |ps| == 0 then map[]
    else
      var last := ps[|ps| - 1];
      var prev := CollectTyped(ps[..|ps| - 1]);
      var g := AddTyped(prev, last.versions, last.issueType, last.task);
      assert forall k :: k in g <==> Carried(ps, k) by {
        forall k ensures k in g <==> Carried(ps, k) { CarriedSnoc(ps, k, ""); }
      }
      assert forall k, ty :: k in g ==> (ty in g[k] <==> CarriedAs(ps, k, ty)) by {
        forall k, ty | k in g ensures ty in g[k] <==> CarriedAs(ps, k, ty) { CarriedSnoc(ps, k, ty); }
      }
      g
  }

  /** Every bucket sorted by task key. */
  function SortFlat(g: map<string, seq<Task>>): (r: map<string, seq<Task>>)
    ensures r.Keys == g.Keys
    ensures forall k :: k in r ==> r[k] == SortByKey(g[k])
  {
    map k | k in g :: SortByKey(g[k])
  }

  /** Every bucket of every version sorted by task key. */
  function SortTyped(g: map<string, map<string, seq<Task>>>): (r: map<string, map<string, seq<Task>>>)
    ensures r.Keys == g.Keys
    ensures forall k :: k in r ==> r[k].Keys == g[k].Keys
    ensures forall k, ty :: k in r && ty in r[k] ==> r[k][ty] == SortByKey(g[k][ty])
  {
    map k | k in g :: map ty | ty in g[k] :: SortByKey(g[k][ty])
  }

  /**
   The columns the engine resolves through the header map; none without a key column.
   Type grouping is on when the switch is set and an issue-type column is given.
   */
  function ColumnsOf(headerMap: map<string, nat>, config: ColConfig, fixIdx: seq<nat>, itIdx: Option<nat>)
    : (r: Option<Columns>)
    ensures r.Some? <==> config.key in headerMap
    ensures r.Some? ==> r.value.key == headerMap[config.key] && r.value.fixVersions == fixIdx
    ensures r.Some? ==> (r.value.issueType.Some? <==> config.useIssueTypeGrouping && itIdx.Some?)
    ensures r.Some? ==> r.value.custDesc == Lookup(headerMap, config.customerDesc)
    ensures r.Some? ==> r.value.installInstr == Lookup(headerMap, config.installInstructions)
  {
    match Lookup(headerMap, config.key)
    case None => None
    case Some(k) =>
      Some(Columns(k, Lookup(headerMap, config.customerDesc), Lookup(headerMap, config.installInstructions),
                   fixIdx, if config.useIssueTypeGrouping then itIdx else None))
  }

  /** A row wide enough for the key and both description columns gives a task made of their cells. */
  lemma TaskOfWideRow(row: seq<string>, rowNum: nat, headerMap: map<string, nat>, config: ColConfig,
                      fixIdx: seq<nat>, itIdx: Option<nat>)
    requires config.key in headerMap && config.customerDesc in headerMap && config.installInstructions in headerMap
    requires headerMap[config.key] < |row| && headerMap[config.customerDesc] < |row|
    requires headerMap[config.installInstructions] < |row|
    ensures var cols := ColumnsOf(headerMap, config, fixIdx, itIdx);
            && cols.Some?
            && PlaceRow(row, rowNum, cols.value).task
               == Task(row[headerMap[config.key]], row[headerMap[config.customerDesc]],
                       row[headerMap[config.installInstructions]])
  {
  }

  /** `group_issues_by_version_and_type`: `None` without a key column, otherwise the sorted buckets. */
  function Group(rows: seq<seq<string>>, headerMap: map<string, nat>, config: ColConfig, fixIdx: seq<nat>, itIdx: Option<nat>)
    : (r: Option<Grouped>)
    ensures r.None? <==> config.key !in headerMap
    ensures r.Some? ==> (r.value.ByType? <==> config.useIssueTypeGrouping && itIdx.Some?)
  {
    match ColumnsOf(headerMap, config, fixIdx, itIdx)
    case None => None
    case Some(cols) =>
      var ps := Placements(rows, cols);
      if cols.issueType.Some? then Some(ByType(SortTyped(CollectTyped(ps))))
      else Some(Flat(SortFlat(CollectFlat(ps))))
  }

  /** The versions a grouping is keyed by. */
  function TopKeys(g: Grouped): set<string>
  {
    match g
    case Flat(m) => m.Keys
    case ByType(m) => m.Keys
  }

  /** The list a grouping holds under version `v` and, with type grouping, sub-key `ty`; empty when absent. */
  function Leaf(g: Grouped, v: string, ty: string): seq<Task>
  {
    match g
    case Flat(m) => Bucket(m, v)
    case ByType(m) => TypedBucket(m, v, ty)
  }

  /** Some row files its task under version `v`. */
  ghost predicate Carries(rows: seq<seq<string>>, fixIdx: seq<nat>, v: string)
  {
    exists i :: 0 <= i < |rows| && v in MicroserviceVersions(rows[i], fixIdx)
  }

  lemma CarriedRows(rows: seq<seq<string>>, cols: Columns, v: string)
    ensures Carried(Placements(rows, cols), v) <==> Carries(rows, cols.fixVersions, v)
  {
    var ps := Placements(rows, cols);
    if Carries(rows, cols.fixVersions, v) {
      var i :| 0 <= i < |rows| && v in MicroserviceVersions(rows[i], cols.fixVersions);
      assert v in ps[i].versions;
    }
  }

  /** The grouping's keys are the versions some placement files under. */
  lemma GroupTopKeys(rows: seq<seq<string>>, headerMap: map<string, nat>, config: ColConfig, fixIdx: seq<nat>,
                     itIdx: Option<nat>, v: string)
    requires config.key in headerMap
    ensures var cols := ColumnsOf(headerMap, config, fixIdx, itIdx).value;
            v in TopKeys(Group(rows, headerMap, config, fixIdx, itIdx).value) <==> Carried(Placements(rows, cols), v)
  {
    var cols := ColumnsOf(headerMap, config, fixIdx, itIdx).value;
    var ps := Placements(rows, cols);
    if cols.issueType.Some? {
      assert Group(rows, headerMap, config, fixIdx, itIdx).value == ByType(SortTyped(CollectTyped(ps)));
    } else {
      assert Group(rows, headerMap, config, fixIdx, itIdx).value == Flat(SortFlat(CollectFlat(ps)));
    }
  }

  /** The grouping is keyed by exactly the versions some row carries, and each of them matches the version pattern. */
  lemma GroupKeys(rows: seq<seq<string>>, headerMap: map<string, nat>, config: ColConfig, fixIdx: seq<nat>,
                  itIdx: Option<nat>, v: string)
    requires config.key in headerMap
    ensures var g := Group(rows, headerMap, config, fixIdx, itIdx).value;
            && (v in TopKeys(g) <==> Carries(rows, fixIdx, v))
            && (v in TopKeys(g) ==> IsMicroserviceVersion(v))
  {
    var cols := ColumnsOf(headerMap, config, fixIdx, itIdx).value;
    GroupTopKeys(rows, headerMap, config, fixIdx, itIdx, v);
    CarriedRows(rows, cols, v);
    if Carries(rows, fixIdx, v) {
      var i :| 0 <= i < |rows| && v in MicroserviceVersions(rows[i], fixIdx);
    }
  }

  /** The reference contents of a leaf: the flat or the typed contributions. */
  function Expected(ps: seq<Placement>, v: string, ty: string, typed: bool): seq<Task>
  {
    if typed then TypedContributions(ps, v, ty) else Contributions(ps, v)
  }

  /** Dropping a placement filed under nothing leaves every reference contents unchanged. */
  lemma ExpectedSnoc(ps: seq<Placement>, p: Placement, v: string, ty: string, typed: bool)
    ensures Expected(ps + [p], v, ty, typed)
            == Expected(ps, v, ty, typed) + if v in p.versions && (!typed || p.issueType == ty) then [p.task] else []
  {
    assert (ps + [p])[..|ps|] == ps;
  }

  /** A flat bucket after sorting is its contributions sorted; an absent one is empty. */
  lemma FlatLeafSorts(ps: seq<Placement>, v: string)
    requires WellFormed(ps)
    ensures Bucket(SortFlat(CollectFlat(ps)), v) == SortByKey(Contributions(ps, v))
  {
    var g := CollectFlat(ps);
    assert Bucket(g, v) == Contributions(ps, v);
    if v !in g {
      assert SortByKey([]) == [];
    }
  }

  /** A typed bucket after sorting is its contributions sorted; an absent one is empty. */
  lemma TypedLeafSorts(ps: seq<Placement>, v: string, ty: string)
    requires WellFormed(ps)
    ensures TypedBucket(SortTyped(CollectTyped(ps)), v, ty) == SortByKey(TypedContributions(ps, v, ty))
  {
    var g := CollectTyped(ps);
    assert TypedBucket(g, v, ty) == TypedContributions(ps, v, ty);
    if !(v in g && ty in g[v]) {
      assert SortByKey([]) == [];
    }
  }

  /** Each leaf is its reference contents sorted by key; an absent leaf has empty contents. */
  lemma LeafSorts(rows: seq<seq<string>>, headerMap: map<string, nat>, config: ColConfig, fixIdx: seq<nat>,
                  itIdx: Option<nat>, v: string, ty: string)
    requires config.key in headerMap
    ensures var cols := ColumnsOf(headerMap, config, fixIdx, itIdx).value;
            Leaf(Group(rows, headerMap, config, fixIdx, itIdx).value, v, ty)
            == SortByKey(Expected(Placements(rows, cols), v, ty, cols.issueType.Some?))
  {
    var cols := ColumnsOf(headerMap, config, fixIdx, itIdx).value;
    var ps := Placements(rows, cols);
    if cols.issueType.Some? {
      assert Group(rows, headerMap, config, fixIdx, itIdx).value == ByType(SortTyped(CollectTyped(ps)));
      TypedLeafSorts(ps, v, ty);
    } else {
      assert Group(rows, headerMap, config, fixIdx, itIdx).value == Flat(SortFlat(CollectFlat(ps)));
      FlatLeafSorts(ps, v);
    }
  }


  /**
   Each leaf is sorted by key, holds exactly the tasks of the rows filed under it, and keeps
   the row order of equal keys: by `StableSortUnique` this fixes the leaf completely.
   */
  lemma GroupLeaf(rows: seq<seq<string>>, headerMap: map<string, nat>, config: ColConfig, fixIdx: seq<nat>,
                  itIdx: Option<nat>, v: string, ty: string)
    requires config.key in headerMap
    ensures var cols := ColumnsOf(headerMap, config, fixIdx, itIdx).value;
            var c := Expected(Placements(rows, cols), v, ty, cols.issueType.Some?);
            var leaf := Leaf(Group(rows, headerMap, config, fixIdx, itIdx).value, v, ty);
            && SortedByKey(leaf)
            && multiset(leaf) == multiset(c)
            && forall k :: WithKey(leaf, k) == WithKey(c, k)
  {
    LeafSorts(rows, headerMap, config, fixIdx, itIdx, v, ty);
  }

  lemma ContributionsNonEmpty(ps: seq<Placement>, v: string, ty: string)
    ensures Carried(ps, v) ==> |Contributions(ps, v)| > 0
    ensures CarriedAs(ps, v, ty) ==> |TypedContributions(ps, v, ty)| > 0
  {
    if |ps| > 0 {
      CarriedSnoc(ps, v, ty);
      ContributionsNonEmpty(ps[..|ps| - 1], v, ty);
    }
  }

  /** No leaf is empty: a version and sub-key appear only together with a task. */
  lemma LeavesNonEmpty(rows: seq<seq<string>>, headerMap: map<string, nat>, config: ColConfig, fixIdx: seq<nat>,
                       itIdx: Option<nat>, v: string, ty: string)
    requires config.key in headerMap
    ensures match Group(rows, headerMap, config, fixIdx, itIdx).value
            case Flat(m) => v in m ==> |m[v]| > 0
            case ByType(m) => v in m && ty in m[v] ==> |m[v][ty]| > 0
  {
    var cols := ColumnsOf(headerMap, config, fixIdx, itIdx).value;
    var ps := Placements(rows, cols);
    ContributionsNonEmpty(ps, v, ty);
    GroupLeaf(rows, headerMap, config, fixIdx, itIdx, v, ty);
    var c := Expected(ps, v, ty, cols.issueType.Some?);
    assert |c| > 0 ==> |multiset(c)| > 0;
  }

  /**
   One more row adds its task exactly once to the leaf of each version it carries (under its
   own sub-key with type grouping) and nothing to any other leaf.
   */
  lemma RowAddsOnce(rows: seq<seq<string>>, row: seq<string>, headerMap: map<string, nat>, config: ColConfig,
                    fixIdx: seq<nat>, itIdx: Option<nat>, v: string, ty: string)
    requires config.key in headerMap
    ensures var cols := ColumnsOf(headerMap, config, fixIdx, itIdx).value;
            var p := PlaceRow(row, |rows|, cols);
            multiset(Leaf(Group(rows + [row], headerMap, config, fixIdx, itIdx).value, v, ty))
            == multiset(Leaf(Group(rows, headerMap, config, fixIdx, itIdx).value, v, ty))
               + if v in p.versions && (cols.issueType.None? || p.issueType == ty) then multiset{p.task} else multiset{}
  {
    var cols := ColumnsOf(headerMap, config, fixIdx, itIdx).value;
    var typed := cols.issueType.Some?;
    PlacementsSnoc(rows, row, cols);
    ExpectedSnoc(Placements(rows, cols), PlaceRow(row, |rows|, cols), v, ty, typed);
    GroupLeaf(rows, headerMap, config, fixIdx, itIdx, v, ty);
    GroupLeaf(rows + [row], headerMap, config, fixIdx, itIdx, v, ty);
  }

  lemma CollectSkip(ps: seq<Placement>, p: Placement)
    requires WellFormed(ps) && p.versions == []
    ensures WellFormed(ps + [p])
    ensures CollectFlat(ps + [p]) == CollectFlat(ps)
    ensures CollectTyped(ps + [p]) == CollectTyped(ps)
  {
    assert (ps + [p])[..|ps|] == ps;
  }

  /** A row without a matching version token changes nothing: it is skipped. */
  lemma SkippedRowChangesNothing(rows: seq<seq<string>>, row: seq<string>, headerMap: map<string, nat>,
                                 config: ColConfig, fixIdx: seq<nat>, itIdx: Option<nat>)
    requires MicroserviceVersions(row, fixIdx) == []
    ensures Group(rows + [row], headerMap, config, fixIdx, itIdx) == Group(rows, headerMap, config, fixIdx, itIdx)
  {
    if config.key in headerMap {
      var cols := ColumnsOf(headerMap, config, fixIdx, itIdx).value;
      PlacementsSnoc(rows, row, cols);
      CollectSkip(Placements(rows, cols), PlaceRow(row, |rows|, cols));
    }
  }
}
