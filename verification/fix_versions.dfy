/**
 The fix-version cells of a row, as both the title scan and the grouping engine read
 them: every fix-version column inside the row whose cell is not empty, split at commas,
 each piece stripped.
 */
module FixVersions {
  import opened Text

  /** Every piece of a list, stripped. */
  function StripAll(pieces: seq<string>): (r: seq<string>)
    ensures |r| == |pieces|
    ensures forall k :: 0 <= k < |r| ==> r[k] == Trim(pieces[k])
  {
    seq(|pieces|, k requires 0 <= k < |pieces| => Trim(pieces[k]))
  }

  /** The stripped comma pieces of the row's cell in column `i`, if the column is inside the row and the cell not empty. */
  function CellVersions(row: seq<string>, i: nat): seq<string>
  {
    if i < |row| && row[i] != "" then StripAll(Split(row[i], ',')) else []
  }

  /** `v` is a stripped comma piece of the non-empty cell in column `i`. */
  ghost predicate InCell(row: seq<string>, i: nat, v: string)
  {
    i < |row| && row[i] != "" && exists p :: p in Split(row[i], ',') && v == Trim(p)
  }

  lemma StripAllExactly(pieces: seq<string>, v: string)
    ensures v in StripAll(pieces) <==> exists p :: p in pieces && v == Trim(p)
  {
    var r := StripAll(pieces);
    if v in r {
      var k :| 0 <= k < |r| && r[k] == v;
      assert pieces[k] in pieces;
    }
    if exists p :: p in pieces && v == Trim(p) {
      var p :| p in pieces && v == Trim(p);
      var k :| 0 <= k < |pieces| && pieces[k] == p;
      assert r[k] == v;
    }
  }

  lemma CellVersionsExactly(row: seq<string>, i: nat, v: string)
    ensures v in CellVersions(row, i) <==> InCell(row, i, v)
  {
    if i < |row| && row[i] != "" {
      StripAllExactly(Split(row[i], ','), v);
    }
  }

  /**
   The version strings of one row, in column order: for every fix-version column inside
   the row whose cell is not empty, the cell's comma-separated pieces, stripped. Empty
   pieces are kept, as the title scan does.
   */
  function RowVersions(row: seq<string>, fixIdx: seq<nat>): seq<string>
  {
    if |fixIdx| == 0 then []
    else CellVersions(row, fixIdx[0]) + RowVersions(row, fixIdx[1..])
  }

  /** A stripped comma piece of a non-empty fix-version cell of the row. */
  ghost predicate IsRowVersion(row: seq<string>, fixIdx: seq<nat>, v: string)
  {
    exists i :: i in fixIdx && InCell(row, i, v)
  }

  lemma {:induction false} RowVersionsExactly(row: seq<string>, fixIdx: seq<nat>, v: string)
    ensures v in RowVersions(row, fixIdx) <==> IsRowVersion(row, fixIdx, v)
    decreases |fixIdx|
  {
    if |fixIdx| > 0 {
      RowVersionsExactly(row, fixIdx[1..], v);
      CellVersionsExactly(row, fixIdx[0], v);
      if IsRowVersion(row, fixIdx, v) {
        var j :| j in fixIdx && InCell(row, j, v);
        if j != fixIdx[0] {
          assert j in fixIdx[1..];
        }
      }
      if IsRowVersion(row, fixIdx[1..], v) {
        var j :| j in fixIdx[1..] && InCell(row, j, v);
        assert j in fixIdx;
      }
    }
  }
}
