/**
 Global version title resolution (`find_global_version_title`): every fix-version
 string that carries the `(global)` marker offers a title candidate, and the title is
 the least candidate in code-point order, or a fixed default when there is none.
 */
module GlobalTitle {
  import opened Wrappers
  import opened Text
  import opened FixVersions
  import opened VersionPattern

  const Marker: string := "(global)"
  const DefaultTitle: string := "Описание Релиза"

  /**
   The title a version string offers: it carries the marker, and what remains after every
   marker is removed and the rest is stripped is not empty.
   */
  function TitleOf(version: string): (r: Option<string>)
    ensures r.Some? ==> HasInfix(version, Marker) && r.value != "" && IsTrimmed(r.value)
    ensures r.Some? ==> |r.value| + |Marker| <= |version|
    ensures !HasInfix(version, Marker) ==> r.None?
  {
    if HasInfix(version, Marker) then
      RemoveAllShrinks(version, Marker);
      var title := Trim(RemoveAll(version, Marker));
      if title != "" then Some(title) else None
    else
      None
  }

  /** The titles the version strings offer, in order, duplicates kept. */
  function Titles(versions: seq<string>): seq<string>
  {
    if |versions| == 0 then []
    else
      var rest := Titles(versions[1..]);
      match TitleOf(versions[0])
      case Some(t) => [t] + rest
      case None => rest
  }

  /** A title is collected exactly when some version string offers it. */
  lemma {:induction false} TitlesExactly(versions: seq<string>, c: string)
    ensures c in Titles(versions) <==> exists v :: v in versions && TitleOf(v) == Some(c)
    decreases |versions|
  {
    if |versions| > 0 {
      TitlesExactly(versions[1..], c);
      assert forall v :: v in versions <==> v == versions[0] || v in versions[1..];
    }
  }

  /** The candidates of all rows, in scan order, duplicates kept: Python collects them into a set. */
  function Candidates(rows: seq<seq<string>>, fixIdx: seq<nat>): seq<string>
  {
    if |rows| == 0 then []
    else Titles(RowVersions(rows[0], fixIdx)) + Candidates(rows[1..], fixIdx)
  }

  /** A title offered by a version string of some row. */
  ghost predicate IsCandidate(rows: seq<seq<string>>, fixIdx: seq<nat>, c: string)
  {
    exists row, v :: row in rows && IsRowVersion(row, fixIdx, v) && TitleOf(v) == Some(c)
  }

  lemma {:induction false} CandidatesExactly(rows: seq<seq<string>>, fixIdx: seq<nat>, c: string)
    ensures c in Candidates(rows, fixIdx) <==> IsCandidate(rows, fixIdx, c)
    decreases |rows|
  {
    if |rows| > 0 {
      CandidatesExactly(rows[1..], fixIdx, c);
      var here := Titles(RowVersions(rows[0], fixIdx));
      assert Candidates(rows, fixIdx) == here + Candidates(rows[1..], fixIdx);
      TitlesExactly(RowVersions(rows[0], fixIdx), c);
      if c in here {
        var v :| v in RowVersions(rows[0], fixIdx) && TitleOf(v) == Some(c);
        RowVersionsExactly(rows[0], fixIdx, v);
      }
      if IsCandidate(rows, fixIdx, c) {
        var row, v :| row in rows && IsRowVersion(row, fixIdx, v) && TitleOf(v) == Some(c);
        if row == rows[0] {
          RowVersionsExactly(rows[0], fixIdx, v);
        } else {
          assert row in rows[1..];
        }
      }
      if IsCandidate(rows[1..], fixIdx, c) {
        var row, v :| row in rows[1..] && IsRowVersion(row, fixIdx, v) && TitleOf(v) == Some(c);
        assert row in rows;
      }
    }
  }

  /**
   `find_global_version_title`: the default when no candidate exists, otherwise the first
   of the sorted candidates, which is a candidate not above any other.
   */
  function FindGlobalVersionTitle(rows: seq<seq<string>>, fixIdx: seq<nat>): (title: string)
    ensures title != ""
    ensures (forall c :: !IsCandidate(rows, fixIdx, c)) ==> title == DefaultTitle
    ensures (exists c :: IsCandidate(rows, fixIdx, c)) ==>
              && IsCandidate(rows, fixIdx, title)
              && forall c :: IsCandidate(rows, fixIdx, c) ==> LexLessEq(title, c)
  {
    var candidates := Candidates(rows, fixIdx);
    if |candidates| == 0 then
      assert forall c :: !IsCandidate(rows, fixIdx, c) by {
        forall c ensures !IsCandidate(rows, fixIdx, c) { CandidatesExactly(rows, fixIdx, c); }
      }
      DefaultTitle
    else
      var title := Least(candidates);
      CandidatesExactly(rows, fixIdx, title);
      assert forall c :: IsCandidate(rows, fixIdx, c) ==> LexLessEq(title, c) by {
        forall c | IsCandidate(rows, fixIdx, c) ensures LexLessEq(title, c) {
          CandidatesExactly(rows, fixIdx, c);
        }
      }
      assert title != "";
      title
  }

  /** Only the set of candidates matters: equal candidate sets give equal titles. */
  lemma TitleDeterminedByCandidates(a: seq<seq<string>>, idxA: seq<nat>, b: seq<seq<string>>, idxB: seq<nat>)
    requires forall c :: IsCandidate(a, idxA, c) <==> IsCandidate(b, idxB, c)
    ensures FindGlobalVersionTitle(a, idxA) == FindGlobalVersionTitle(b, idxB)
  {
    var ta, tb := FindGlobalVersionTitle(a, idxA), FindGlobalVersionTitle(b, idxB);
    if exists c :: IsCandidate(a, idxA, c) {
      LexAntisymmetric(ta, tb);
    }
  }

  /**
   The title ignores the order of the rows and of the fix-version columns, and any
   repetition among them.
   */
  lemma TitleIgnoresOrderAndRepetition(a: seq<seq<string>>, idxA: seq<nat>, b: seq<seq<string>>, idxB: seq<nat>)
    requires forall row :: row in a <==> row in b
    requires forall i :: i in idxA <==> i in idxB
    ensures FindGlobalVersionTitle(a, idxA) == FindGlobalVersionTitle(b, idxB)
  {
    forall row, v ensures IsRowVersion(row, idxA, v) <==> IsRowVersion(row, idxB, v) {
      if IsRowVersion(row, idxA, v) {
        var i :| i in idxA && InCell(row, i, v);
        assert i in idxB;
      }
      if IsRowVersion(row, idxB, v) {
        var i :| i in idxB && InCell(row, i, v);
        assert i in idxA;
      }
    }
    forall c ensures IsCandidate(a, idxA, c) <==> IsCandidate(b, idxB, c) {
      if IsCandidate(a, idxA, c) {
        var row, v :| row in a && IsRowVersion(row, idxA, v) && TitleOf(v) == Some(c);
        assert row in b;
      }
      if IsCandidate(b, idxB, c) {
        var row, v :| row in b && IsRowVersion(row, idxB, v) && TitleOf(v) == Some(c);
        assert row in a;
      }
    }
    TitleDeterminedByCandidates(a, idxA, b, idxB);
  }

  /** A version made of a stripped title and the marker after it offers that title. */
  lemma MarkedSuffixTitle(title: string)
    requires title != "" && IsTrimmed(title) && '(' !in title
    ensures TitleOf(title + Marker) == Some(title)
  {
    RemoveTrailing(title, Marker);
    TrimOfTrimmed(title);
  }

  /** No microservice version carries the marker, so none offers a title. */
  lemma MicroserviceVersionOffersNoTitle(v: string)
    requires IsMicroserviceVersion(v)
    ensures TitleOf(v) == None
  {
    MicroserviceVersionHasNoMarker(v);
  }

  /** Strings shorter than the marker, such as `AM2.3.3` and `X`, offer nothing. */
  lemma UnmarkedTitles()
    ensures TitleOf("AM2.3.3") == None
    ensures TitleOf("X") == None
  {
    ShortHasNoInfix("AM2.3.3", Marker);
    ShortHasNoInfix("X", Marker);
  }
}
