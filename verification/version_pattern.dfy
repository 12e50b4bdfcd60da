/**
 The microservice version pattern `^[A-Z]{2}\d+(\.\d+){1,2}$` of the grouping engine:
 two upper-case ASCII letters, then two or three dot-separated groups of digits.
 The grouping engine filters with the predicate `IsMicroserviceVersion` itself;
 `MatchMicroserviceVersion` is a separate executable scan, proved to decide the same
 predicate, and nothing in the model calls it.
 */
module VersionPattern {
  import opened Text

  predicate IsUpperAscii(c: char)
  {
    'A' <= c <= 'Z'
  }

  predicate IsDigitAscii(c: char)
  {
    '0' <= c <= '9'
  }

  predicate AllDigits(s: string)
  {
    forall k :: 0 <= k < |s| ==> IsDigitAscii(s[k])
  }

  /** One `\d+` group: non-empty and digits only. */
  predicate IsNumber(s: string)
  {
    |s| > 0 && AllDigits(s)
  }

  /**
   A token the pattern matches in full. Since `.` is not a digit, the part after the two
   letters matches `\d+(\.\d+){1,2}` exactly when its dot-separated pieces are two or
   three non-empty digit runs.
   */
  predicate IsMicroserviceVersion(s: string)
  {
    && |s| >= 2 && IsUpperAscii(s[0]) && IsUpperAscii(s[1])
    && var groups := Split(s[2..], '.');
       2 <= |groups| <= 3 && forall g :: g in groups ==> IsNumber(g)
  }

  /** What a scan of a prefix of the numeric part must have seen so far for a match to remain possible. */
  predicate PrefixViable(t: string)
  {
    var groups := Split(t, '.');
    && |groups| <= 3
    && (forall k :: 0 <= k < |groups| - 1 ==> IsNumber(groups[k]))
    && AllDigits(groups[|groups| - 1])
  }

  lemma AllDigitsSnoc(x: string, c: char)
    ensures AllDigits(x + [c]) <==> AllDigits(x) && IsDigitAscii(c)
  {
    var y := x + [c];
    assert y[|x|] == c;
    assert forall j :: 0 <= j < |x| ==> y[j] == x[j];
  }

  /** A character other than the dot extends the current group. */
  lemma ViableStepPlain(t: string, c: char)
    requires c != '.'
    ensures PrefixViable(t + [c]) <==> PrefixViable(t) && IsDigitAscii(c)
  {
    var groups := Split(t, '.');
    var k := |groups| - 1;
    SplitSnoc(t, c, '.');
    var next := Split(t + [c], '.');
    assert |next| == |groups|;
    assert forall j :: 0 <= j < k ==> next[j] == groups[j];
    assert next[k] == groups[k] + [c];
    AllDigitsSnoc(groups[k], c);
  }

  /** A dot closes the current group, which must be non-empty, and opens a new one. */
  lemma ViableStepDot(t: string)
    ensures var groups := Split(t, '.');
            PrefixViable(t + ['.']) <==> PrefixViable(t) && |groups[|groups| - 1]| > 0 && |groups| < 3
  {
    var groups := Split(t, '.');
    var k := |groups| - 1;
    SplitSnoc(t, '.', '.');
    var next := Split(t + ['.'], '.');
    assert next == groups + [""];
    assert forall j :: 0 <= j <= k ==> next[j] == groups[j];
    assert AllDigits(next[k + 1]);
  }

  lemma ViableStep(t: string, c: char)
    ensures var groups := Split(t, '.');
            PrefixViable(t + [c]) <==>
              PrefixViable(t) &&
              if c == '.' then |groups[|groups| - 1]| > 0 && |groups| < 3 else IsDigitAscii(c)
  {
    if c == '.' { ViableStepDot(t); } else { ViableStepPlain(t, c); }
  }

  lemma MatchFromViable(t: string)
    ensures var groups := Split(t, '.');
            (2 <= |groups| <= 3 && forall g :: g in groups ==> IsNumber(g)) <==>
              PrefixViable(t) && |groups| >= 2 && |groups[|groups| - 1]| > 0
  {
    var groups := Split(t, '.');
    if PrefixViable(t) && |groups| >= 2 && |groups[|groups| - 1]| > 0 {
      forall g | g in groups ensures IsNumber(g) {
        var k :| 0 <= k < |groups| && groups[k] == g;
      }
    }
    if 2 <= |groups| <= 3 && forall g :: g in groups ==> IsNumber(g) {
      assert IsNumber(groups[|groups| - 1]);
      forall k | 0 <= k < |groups| - 1 ensures IsNumber(groups[k]) {
        assert groups[k] in groups;
      }
    }
  }

  /** The state of the scan after reading the prefix `t` of the numeric part. */
  predicate ScanState(t: string, dots: nat, run: nat, viable: bool)
  {
    var groups := Split(t, '.');
    && dots == |groups| - 1
    && run == |groups[|groups| - 1]|
    && (viable <==> PrefixViable(t))
  }

  lemma ScanStep(t: string, c: char, dots: nat, run: nat, viable: bool)
    requires ScanState(t, dots, run, viable)
    ensures c == '.' ==> ScanState(t + [c], dots + 1, 0, viable && run > 0 && dots < 2)
    ensures c != '.' ==> ScanState(t + [c], dots, run + 1, viable && IsDigitAscii(c))
  {
    ViableStep(t, c);
    SplitSnoc(t, c, '.');
  }

  /** One character more of the numeric part `t`, read at position `i`. */
  lemma ScanAdvance(t: string, i: nat, dots: nat, run: nat, viable: bool)
    requires i < |t| && ScanState(t[..i], dots, run, viable)
    ensures t[i] == '.' ==> ScanState(t[..i + 1], dots + 1, 0, viable && run > 0 && dots < 2)
    ensures t[i] != '.' ==> ScanState(t[..i + 1], dots, run + 1, viable && IsDigitAscii(t[i]))
  {
    ScanStep(t[..i], t[i], dots, run, viable);
    assert t[..i + 1] == t[..i] + [t[i]];
  }

  /** After the whole numeric part, the scan state decides the pattern. */
  lemma ScanDecides(s: string, dots: nat, run: nat, viable: bool)
    requires |s| >= 2 && IsUpperAscii(s[0]) && IsUpperAscii(s[1])
    requires ScanState(s[2..], dots, run, viable)
    ensures (viable && dots >= 1 && run > 0) <==> IsMicroserviceVersion(s)
  {
    MatchFromViable(s[2..]);
  }

  /**
   A single left-to-right scan, in the manner of a regular-expression engine, that decides
   the pattern: the letters, then digits, with a dot allowed only after a non-empty group
   and at most twice.
   */
  method MatchMicroserviceVersion(s: string) returns (matched: bool)
    ensures matched <==> IsMicroserviceVersion(s)
  {
    if |s| < 2 || !IsUpperAscii(s[0]) || !IsUpperAscii(s[1]) {
      return false;
    }
    var t := s[2..];
    var dots, run := 0, 0;
    var viable := true;
    var i := 0;
    assert t[..0] == "";
    while i < |t|
      invariant 0 <= i <= |t|
      invariant ScanState(t[..i], dots, run, viable)
    {
      ScanAdvance(t, i, dots, run, viable);
      if t[i] == '.' {
        viable := viable && run > 0 && dots < 2;
        dots, run := dots + 1, 0;
      } else {
        viable := viable && IsDigitAscii(t[i]);
        run := run + 1;
      }
      i := i + 1;
    }
    assert t[..i] == t;
    ScanDecides(s, dots, run, viable);
    matched := viable && dots >= 1 && run > 0;
  }

  /** Every character of a joined string is the separator or a character of one of the pieces. */
  lemma {:induction false} JoinChars(parts: seq<string>, sep: char, k: nat)
    requires k < |Join(parts, sep)|
    ensures Join(parts, sep)[k] == sep || exists p :: p in parts && Join(parts, sep)[k] in p
    decreases |parts|
  {
    var s := Join(parts, sep);
    if |parts| >= 2 {
      var init := Join(parts[..|parts| - 1], sep);
      var last := parts[|parts| - 1];
      assert s == init + [sep] + last;
      if k < |init| {
        JoinChars(parts[..|parts| - 1], sep, k);
        assert s[k] == init[k];
        if s[k] != sep {
          var p :| p in parts[..|parts| - 1] && init[k] in p;
          assert p in parts;
        }
      } else if k > |init| {
        assert s[k] == last[k - |init| - 1];
        assert last in parts;
      }
    } else {
      assert s[k] in parts[0];
    }
  }

  /** A token matching the pattern holds only letters, digits and dots. */
  lemma MicroserviceVersionChars(s: string, k: nat)
    requires IsMicroserviceVersion(s) && k < |s|
    ensures IsUpperAscii(s[k]) || IsDigitAscii(s[k]) || s[k] == '.'
  {
    if k >= 2 {
      var t := s[2..];
      var groups := Split(t, '.');
      JoinSplit(t, '.');
      JoinChars(groups, '.', k - 2);
      assert s[k] == t[k - 2];
      if s[k] != '.' {
        var p :| p in groups && s[k] in p;
        var j :| 0 <= j < |p| && p[j] == s[k];
        assert IsNumber(p);
      }
    }
  }

  /** A token matching the pattern never carries the global-version marker. */
  lemma MicroserviceVersionHasNoMarker(s: string)
    requires IsMicroserviceVersion(s)
    ensures !HasInfix(s, "(global)")
  {
    if HasInfix(s, "(global)") {
      InfixHead(s, "(global)");
      var k :| 0 <= k < |s| && s[k] == '(';
      MicroserviceVersionChars(s, k);
    }
  }

  /** Two letters followed by two or three digit groups joined with dots form a matching token. */
  lemma FromGroups(l0: char, l1: char, groups: seq<string>)
    requires IsUpperAscii(l0) && IsUpperAscii(l1)
    requires 2 <= |groups| <= 3 && forall g :: g in groups ==> IsNumber(g)
    ensures IsMicroserviceVersion([l0, l1] + Join(groups, '.'))
  {
    var s := [l0, l1] + Join(groups, '.');
    assert s[2..] == Join(groups, '.');
    forall g | g in groups ensures '.' !in g {
      assert IsNumber(g);
    }
    SplitJoin(groups, '.');
  }

  /** Tokens the pattern accepts: two and three numeric groups, and a multi-digit group. */
  lemma AcceptedExamples()
    ensures IsMicroserviceVersion("AM2.3.3")
    ensures IsMicroserviceVersion("AM10.0")
  {
    var a, b := ["2", "3", "3"], ["10", "0"];
    assert a[..2][..1] == ["2"] && b[..1] == ["10"];
    assert Join(a[..2], '.') == "2.3";
    assert ['A', 'M'] + Join(a, '.') == "AM2.3.3";
    assert ['A', 'M'] + Join(b, '.') == "AM10.0";
    assert forall g :: g in a ==> g == "2" || g == "3";
    assert forall g :: g in b ==> g == "10" || g == "0";
    assert IsNumber("10") && IsNumber("0") && IsNumber("2") && IsNumber("3");
    FromGroups('A', 'M', a);
    FromGroups('A', 'M', b);
  }

  /** Tokens the pattern rejects: one numeric group, lower-case letters, a trailing marker. */
  lemma RejectedExamples()
    ensures !IsMicroserviceVersion("AM2")
    ensures !IsMicroserviceVersion("am2.3")
    ensures !IsMicroserviceVersion("FR1.0(global)")
  {
    assert "AM2"[2..] == Join(["2"], '.');
    SplitJoin(["2"], '.');
    assert "am2.3"[0] == 'a';
    var s := "FR1.0(global)";
    assert s[5] == '(';
    if IsMicroserviceVersion(s) { MicroserviceVersionChars(s, 5); }
  }
}
