/**
 The string primitives the importer relies on, modelled on Python 3's `str`:
 `strip()`, `split(sep)`, `in`, `replace(pat, "")`, the `<=` order on strings
 and `str(n)` for a natural number. Strings are sequences of code points.
 */
module Text {

  /** The characters Python 3's `str.isspace()` accepts, which are the ones `str.strip()` removes. */
  predicate IsSpace(c: char)
  {
    var n := c as int;
    (0x09 <= n <= 0x0D) || (0x1C <= n <= 0x20) || n == 0x85 || n == 0xA0 || n == 0x1680
    || (0x2000 <= n <= 0x200A) || n == 0x2028 || n == 0x2029 || n == 0x202F || n == 0x205F
    || n == 0x3000
  }

  predicate AllSpace(s: string)
  {
    forall k :: 0 <= k < |s| ==> IsSpace(s[k])
  }

  /** Neither a leading nor a trailing whitespace character. */
  predicate IsTrimmed(s: string)
  {
    |s| == 0 || (!IsSpace(s[0]) && !IsSpace(s[|s| - 1]))
  }

  /** `r` is `s` with a whitespace prefix and a whitespace suffix cut off, and nothing left to cut. */
  ghost predicate StripOf(s: string, r: string)
  {
    && IsTrimmed(r)
    && exists i, j :: 0 <= i <= j <= |s| && r == s[i..j] && AllSpace(s[..i]) && AllSpace(s[j..])
  }

  function TrimStart(s: string): (r: string)
    ensures |r| <= |s| && r == s[|s| - |r|..]
    ensures AllSpace(s[..|s| - |r|])
    ensures |r| == 0 || !IsSpace(r[0])
  {
    if |s| > 0 && IsSpace(s[0]) then
      var r := TrimStart(s[1..]);
      assert s[..|s| - |r|] == [s[0]] + s[1..][..|s| - 1 - |r|];
      r
    else s
  }

  function TrimEnd(s: string): (r: string)
    ensures |r| <= |s| && r == s[..|r|]
    ensures AllSpace(s[|r|..])
    ensures |r| == 0 || !IsSpace(r[|r| - 1])
  {
    if |s| > 0 && IsSpace(s[|s| - 1]) then
      var r := TrimEnd(s[..|s| - 1]);
      assert s[|r|..] == s[..|s| - 1][|r|..] + [s[|s| - 1]];
      r
    else s
  }

  /** Python's `str.strip()` with no argument. */
  function Trim(s: string): (r: string)
    ensures IsTrimmed(r) && |r| <= |s|
  {
    TrimEnd(TrimStart(s))
  }

  /** `strip()` cuts a whitespace prefix and a whitespace suffix and leaves nothing more to cut. */
  lemma TrimIsStrip(s: string)
    ensures StripOf(s, Trim(s))
  {
    var t := TrimStart(s);
    var r := TrimEnd(t);
    var i, j := |s| - |t|, |s| - |t| + |r|;
    assert r == s[i..j];
    assert s[j..] == t[|r|..];
  }

  lemma SpaceInPrefix(s: string, n: nat, k: nat)
    requires n <= |s| && AllSpace(s[..n]) && k < n
    ensures IsSpace(s[k])
  {
    assert s[k] == s[..n][k];
  }

  lemma SpaceInSuffix(s: string, n: nat, k: nat)
    requires n <= k < |s| && AllSpace(s[n..])
    ensures IsSpace(s[k])
  {
    assert s[k] == s[n..][k - n];
  }

  /** Two whitespace cuts of `s` whose remainders are trimmed and non-empty cut at the same places. */
  lemma StripCutsAgree(s: string, i1: nat, j1: nat, i2: nat, j2: nat)
    requires i1 < j1 <= |s| && i2 < j2 <= |s|
    requires AllSpace(s[..i1]) && AllSpace(s[j1..]) && AllSpace(s[..i2]) && AllSpace(s[j2..])
    requires !IsSpace(s[i1]) && !IsSpace(s[j1 - 1]) && !IsSpace(s[i2]) && !IsSpace(s[j2 - 1])
    ensures i1 == i2 && j1 == j2
  {
    if i1 < i2 { SpaceInPrefix(s, i2, i1); }
    if i2 < i1 { SpaceInPrefix(s, i1, i2); }
  }

  lemma AllSpaceConcat(s: string, n: nat)
    requires n <= |s| && AllSpace(s[..n]) && AllSpace(s[n..])
    ensures AllSpace(s)
  {
    forall k | 0 <= k < |s| ensures IsSpace(s[k]) {
      if k < n { SpaceInPrefix(s, n, k); } else { SpaceInSuffix(s, n, k); }
    }
  }

  lemma StripCutsSame(s: string, i1: nat, j1: nat, i2: nat, j2: nat)
    requires i1 <= j1 <= |s| && i2 <= j2 <= |s|
    requires AllSpace(s[..i1]) && AllSpace(s[j1..]) && AllSpace(s[..i2]) && AllSpace(s[j2..])
    requires IsTrimmed(s[i1..j1]) && IsTrimmed(s[i2..j2])
    ensures s[i1..j1] == s[i2..j2]
  {
    var r1, r2 := s[i1..j1], s[i2..j2];
    if i1 == j1 && i2 < j2 {
      assert r2[0] == s[i2];
      AllSpaceConcat(s, i1);
    } else if i2 == j2 && i1 < j1 {
      assert r1[0] == s[i1];
      AllSpaceConcat(s, i2);
    } else if i1 < j1 {
      assert r1[0] == s[i1] && r2[0] == s[i2];
      assert r1[|r1| - 1] == s[j1 - 1] && r2[|r2| - 1] == s[j2 - 1];
      StripCutsAgree(s, i1, j1, i2, j2);
    }
  }

  /** Cutting whitespace off both ends has exactly one outcome, so `StripOf` specifies `Trim` completely. */
  lemma StripUnique(s: string, r1: string, r2: string)
    requires StripOf(s, r1) && StripOf(s, r2)
    ensures r1 == r2
  {
    var i1, j1 :| 0 <= i1 <= j1 <= |s| && r1 == s[i1..j1] && AllSpace(s[..i1]) && AllSpace(s[j1..]);
    var i2, j2 :| 0 <= i2 <= j2 <= |s| && r2 == s[i2..j2] && AllSpace(s[..i2]) && AllSpace(s[j2..]);
    StripCutsSame(s, i1, j1, i2, j2);
  }

  /** Stripping an already stripped string changes nothing. */
  lemma TrimOfTrimmed(s: string)
    requires IsTrimmed(s)
    ensures Trim(s) == s
  {
    assert StripOf(s, s) by {
      assert s == s[0..|s|] && s[..0] == [] && s[|s|..] == [];
    }
    TrimIsStrip(s);
    StripUnique(s, Trim(s), s);
  }

  /** Whitespace around a stripped string is exactly what `strip()` removes. */
  lemma TrimPadded(pre: string, s: string, post: string)
    requires AllSpace(pre) && AllSpace(post) && IsTrimmed(s)
    ensures Trim(pre + s + post) == s
  {
    var t := pre + s + post;
    var i, j := |pre|, |pre| + |s|;
    assert t[..i] == pre && t[j..] == post && t[i..j] == s;
    assert StripOf(t, s);
    TrimIsStrip(t);
    StripUnique(t, Trim(t), s);
  }

  /** Python's `sep.join(parts)` for a one-character separator. */
  function Join(parts: seq<string>, sep: char): string
  {
    if |parts| == 0 then ""
    else if |parts| == 1 then parts[0]
    else Join(parts[..|parts| - 1], sep) + [sep] + parts[|parts| - 1]
  }

  /** Python's `s.split(sep)` for a one-character separator: never empty (`SplitPiecesFree`: no piece holds `sep`). */
  function Split(s: string, sep: char): (parts: seq<string>)
    ensures |parts| >= 1
  {
    if |s| == 0 then [""]
    else
      var prev := Split(s[..|s| - 1], sep);
      var c := s[|s| - 1];
      if c == sep then
        prev + [""]
      else
        prev[..|prev| - 1] + [prev[|prev| - 1] + [c]]
  }

  lemma JoinInitLast(parts: seq<string>, sep: char)
    requires |parts| >= 2
    ensures Join(parts, sep) == Join(parts[..|parts| - 1], sep) + [sep] + parts[|parts| - 1]
  {
  }

  lemma InitLast(init: seq<string>, last: string, parts: seq<string>)
    requires parts == init + [last]
    ensures parts[..|parts| - 1] == init && parts[|parts| - 1] == last
  {
  }

  /** A new empty last piece adds one separator to the join. */
  lemma JoinAppendEmpty(prev: seq<string>, parts: seq<string>, sep: char)
    requires |prev| >= 1 && parts == prev + [""]
    ensures Join(parts, sep) == Join(prev, sep) + [sep]
  {
    InitLast(prev, "", parts);
    JoinInitLast(parts, sep);
  }

  /** A character added to the last piece is added to the end of the join. */
  lemma JoinExtendLast(prev: seq<string>, parts: seq<string>, c: char, sep: char)
    requires |prev| >= 1 && parts == prev[..|prev| - 1] + [prev[|prev| - 1] + [c]]
    ensures Join(parts, sep) == Join(prev, sep) + [c]
  {
    var k := |prev| - 1;
    InitLast(prev[..k], prev[k] + [c], parts);
    if k > 0 {
      JoinInitLast(parts, sep);
      JoinInitLast(prev, sep);
    }
  }

  lemma JoinSplitStep(init: string, c: char, s: string, sep: char)
    requires s == init + [c] && Join(Split(init, sep), sep) == init
    ensures Join(Split(s, sep), sep) == s
  {
    SplitSnoc(init, c, sep);
    if c == sep {
      JoinAppendEmpty(Split(init, sep), Split(s, sep), sep);
    } else {
      JoinExtendLast(Split(init, sep), Split(s, sep), c, sep);
    }
  }

  /** Joining the pieces of a split with the separator gives back the string. */
  lemma {:induction false} JoinSplit(s: string, sep: char)
    ensures Join(Split(s, sep), sep) == s
    decreases |s|
  {
    if |s| > 0 {
      var init := s[..|s| - 1];
      JoinSplit(init, sep);
      assert s == init + [s[|s| - 1]];
      JoinSplitStep(init, s[|s| - 1], s, sep);
    }
  }

  /** One more character either opens a new piece (the separator) or extends the last one. */
  lemma SplitSnoc(s: string, c: char, sep: char)
    ensures var p := Split(s, sep);
            Split(s + [c], sep) == if c == sep then p + [""] else p[..|p| - 1] + [p[|p| - 1] + [c]]
  {
    assert (s + [c])[..|s + [c]| - 1] == s;
  }

  /** Extending the last piece of `a + [w]` by `c`. */
  lemma ExtendLast(a: seq<string>, w: string, c: char, p: seq<string>, q: seq<string>)
    requires p == a + [w] && q == p[..|p| - 1] + [p[|p| - 1] + [c]]
    ensures q == a + [w + [c]]
  {
    assert p[..|p| - 1] == a;
  }

  lemma SnocAssoc(x: string, y': string, c: char)
    ensures x + (y' + [c]) == (x + y') + [c]
  {
  }

  /** The step of `SplitAppendPlain`: one more character other than the separator. */
  lemma SplitAppendStep(x: string, y': string, y: string, c: char, sep: char)
    requires c != sep && y == y' + [c]
    requires var px := Split(x, sep);
             Split(x + y', sep) == px[..|px| - 1] + [px[|px| - 1] + y']
    ensures var px := Split(x, sep);
            Split(x + y, sep) == px[..|px| - 1] + [px[|px| - 1] + y]
  {
    var px := Split(x, sep);
    var k := |px| - 1;
    SnocAssoc(x, y', c);
    SnocAssoc(px[k], y', c);
    SplitSnoc(x + y', c, sep);
    ExtendLast(px[..k], px[k] + y', c, Split(x + y', sep), Split(x + y, sep));
  }

  lemma NoSepSnoc(w: string, c: char, sep: char)
    requires sep !in w && c != sep
    ensures sep !in w + [c]
  {
    assert forall d :: d in w + [c] ==> d in w || d == c;
  }

  /** The split pieces of `s` hold no separator. */
  lemma {:induction false} SplitPiecesFree(s: string, sep: char)
    ensures forall p :: p in Split(s, sep) ==> sep !in p
    decreases |s|
  {
    if |s| > 0 {
      var init, c := s[..|s| - 1], s[|s| - 1];
      var prev := Split(init, sep);
      SplitPiecesFree(init, sep);
      assert s == init + [c];
      SplitSnoc(init, c, sep);
      if c == sep {
        assert forall p :: p in prev + [""] ==> p in prev || p == "";
      } else {
        var k := |prev| - 1;
        assert prev[k] in prev;
        NoSepSnoc(prev[k], c, sep);
        assert forall p :: p in prev[..k] + [prev[k] + [c]] ==> p in prev || p == prev[k] + [c];
      }
    }
  }

  /** Text free of the separator only lengthens the last piece. */
  lemma {:induction false} SplitAppendPlain(x: string, y: string, sep: char)
    requires sep !in y
    ensures var px := Split(x, sep);
            Split(x + y, sep) == px[..|px| - 1] + [px[|px| - 1] + y]
    decreases |y|
  {
    if |y| == 0 {
      var px := Split(x, sep);
      assert x + y == x;
      assert px[|px| - 1] + y == px[|px| - 1];
      assert px[..|px| - 1] + [px[|px| - 1]] == px;
    } else {
      var y', c := y[..|y| - 1], y[|y| - 1];
      assert y == y' + [c];
      assert sep !in y';
      SplitAppendPlain(x, y', sep);
      SplitAppendStep(x, y', y, c, sep);
    }
  }

  lemma EmptyConcat(s: string)
    ensures "" + s == s
  {
  }

  /** The step of `SplitJoin`: one more piece free of the separator. */
  lemma SplitJoinStep(init: seq<string>, last: string, parts: seq<string>, sep: char)
    requires |init| >= 1 && parts == init + [last] && sep !in last
    requires Split(Join(init, sep), sep) == init
    ensures Split(Join(parts, sep), sep) == parts
  {
    var x := Join(init, sep) + [sep];
    SplitSnoc(Join(init, sep), sep, sep);
    SplitAppendPlain(x, last, sep);
    InitLast(init, "", init + [""]);
    InitLast(init, last, parts);
    EmptyConcat(last);
    JoinInitLast(parts, sep);
  }

  /** Splitting undoes joining, for pieces that are free of the separator. */
  lemma {:induction false} SplitJoin(parts: seq<string>, sep: char)
    requires |parts| >= 1
    requires forall p :: p in parts ==> sep !in p
    ensures Split(Join(parts, sep), sep) == parts
    decreases |parts|
  {
    var last := parts[|parts| - 1];
    if |parts| == 1 {
      SplitAppendPlain("", last, sep);
      EmptyConcat(last);
      assert parts == [last];
    } else {
      var init := parts[..|parts| - 1];
      assert forall p :: p in init ==> p in parts;
      SplitJoin(init, sep);
      assert parts == init + [last];
      SplitJoinStep(init, last, parts, sep);
    }
  }

  /** Python's `pat in s`. */
  predicate HasInfix(s: string, pat: string)
  {
    (|pat| <= |s| && s[..|pat|] == pat) || (|s| > 0 && HasInfix(s[1..], pat))
  }

  /** An occurrence at any position makes `pat in s` true. */
  lemma {:induction false} InfixAt(s: string, pat: string, n: nat)
    requires n + |pat| <= |s| && s[n..n + |pat|] == pat
    ensures HasInfix(s, pat)
  {
    if n > 0 {
      assert s[1..][n - 1..n - 1 + |pat|] == s[n..n + |pat|];
      InfixAt(s[1..], pat, n - 1);
    } else {
      assert s[..|pat|] == s[0..|pat|];
    }
  }

  /** A string shorter than the pattern does not contain it. */
  lemma {:induction false} ShortHasNoInfix(s: string, pat: string)
    requires |s| < |pat|
    ensures !HasInfix(s, pat)
  {
    if |s| > 0 { ShortHasNoInfix(s[1..], pat); }
  }

  /** Removing a pattern from itself leaves nothing. */
  lemma RemoveAllSelf(pat: string)
    requires |pat| > 0
    ensures RemoveAll(pat, pat) == ""
  {
    assert pat[..|pat|] == pat;
    assert pat[|pat|..] == "";
  }

  /** An occurrence of a non-empty pattern puts its first character into the string. */
  lemma {:induction false} InfixHead(s: string, pat: string)
    requires |pat| > 0 && HasInfix(s, pat)
    ensures pat[0] in s
  {
    if |pat| <= |s| && s[..|pat|] == pat {
      assert s[0] == pat[0];
    } else {
      InfixHead(s[1..], pat);
    }
  }

  /**
   Python's `s.replace(pat, "")`: the occurrences of `pat` found scanning left to right,
   without overlap, are removed. Text that only becomes an occurrence after a removal stays.
   */
  function RemoveAll(s: string, pat: string): (r: string)
    requires |pat| > 0
    ensures |r| <= |s|
  {
    if |pat| <= |s| && s[..|pat|] == pat then RemoveAll(s[|pat|..], pat)
    else if |s| == 0 then s
    else [s[0]] + RemoveAll(s[1..], pat)
  }

  /** Without an occurrence nothing is removed; with one, at least the pattern's length is. */
  lemma {:induction false} RemoveAllShrinks(s: string, pat: string)
    requires |pat| > 0
    ensures !HasInfix(s, pat) ==> RemoveAll(s, pat) == s
    ensures HasInfix(s, pat) ==> |RemoveAll(s, pat)| + |pat| <= |s|
  {
    if |pat| <= |s| && s[..|pat|] == pat {
    } else if |s| > 0 {
      RemoveAllShrinks(s[1..], pat);
      assert s == [s[0]] + s[1..];
    }
  }

  lemma RemoveAllStep(s: string, pat: string)
    requires |pat| > 0 && |s| > 0 && s[0] != pat[0]
    ensures RemoveAll(s, pat) == [s[0]] + RemoveAll(s[1..], pat)
  {
    assert !(|pat| <= |s| && s[..|pat|] == pat) by {
      if |pat| <= |s| { assert s[..|pat|][0] == s[0]; }
    }
  }

  lemma ConsPrefix(s: string, n: nat, whole: string, tail: string, rest: string)
    requires 0 < n <= |s|
    requires whole == [s[0]] + tail && tail == s[1..][..n - 1] + rest
    ensures whole == s[..n] + rest
  {
    assert [s[0]] + s[1..][..n - 1] == s[..n];
  }

  /** A stretch that cannot start an occurrence is copied unchanged. */
  lemma {:induction false} RemoveAllSkips(s: string, pat: string, n: nat)
    requires |pat| > 0 && n <= |s|
    requires forall k :: 0 <= k < n ==> s[k] != pat[0]
    ensures RemoveAll(s, pat) == s[..n] + RemoveAll(s[n..], pat)
  {
    if n == 0 {
      assert s[..0] + s[0..] == s;
    } else {
      var t := s[1..];
      assert forall k :: 0 <= k < n - 1 ==> t[k] != pat[0] by {
        forall k | 0 <= k < n - 1 ensures t[k] != pat[0] { assert t[k] == s[k + 1]; }
      }
      RemoveAllSkips(t, pat, n - 1);
      assert t[n - 1..] == s[n..];
      RemoveAllStep(s, pat);
      ConsPrefix(s, n, RemoveAll(s, pat), RemoveAll(t, pat), RemoveAll(s[n..], pat));
    }
  }

  /** A pattern at the end, after a stretch that cannot start it, is removed and nothing else. */
  lemma RemoveTrailing(pre: string, pat: string)
    requires |pat| > 0
    requires forall k :: 0 <= k < |pre| ==> pre[k] != pat[0]
    ensures HasInfix(pre + pat, pat)
    ensures RemoveAll(pre + pat, pat) == pre
  {
    var s := pre + pat;
    assert s[..|pre|] == pre && s[|pre|..] == pat && s[|pre|..|pre| + |pat|] == pat;
    InfixAt(s, pat, |pre|);
    RemoveAllSkips(s, pat, |pre|);
    RemoveAllSelf(pat);
    assert pre + "" == pre;
  }

  /** Python's `a <= b` on `str`: code-point lexicographic order, with a proper prefix first. */
  predicate LexLessEq(a: string, b: string)
  {
    |a| == 0 || (|b| > 0 && (a[0] < b[0] || (a[0] == b[0] && LexLessEq(a[1..], b[1..]))))
  }

  lemma {:induction false} LexReflexive(a: string)
    ensures LexLessEq(a, a)
  {
    if |a| > 0 { LexReflexive(a[1..]); }
  }

  lemma {:induction false} LexAntisymmetric(a: string, b: string)
    requires LexLessEq(a, b) && LexLessEq(b, a)
    ensures a == b
  {
    if |a| > 0 && |b| > 0 {
      LexAntisymmetric(a[1..], b[1..]);
      assert a == [a[0]] + a[1..] && b == [b[0]] + b[1..];
    }
  }

  lemma {:induction false} LexTransitive(a: string, b: string, c: string)
    requires LexLessEq(a, b) && LexLessEq(b, c)
    ensures LexLessEq(a, c)
  {
    if |a| > 0 && |b| > 0 && |c| > 0 && a[0] == b[0] == c[0] {
      LexTransitive(a[1..], b[1..], c[1..]);
    }
  }

  lemma {:induction false} LexTotal(a: string, b: string)
    ensures LexLessEq(a, b) || LexLessEq(b, a)
  {
    if |a| > 0 && |b| > 0 && a[0] == b[0] {
      LexTotal(a[1..], b[1..]);
    }
  }

  /** The first element of Python's `sorted(xs)`: a member of `xs` below every member. */
  function Least(xs: seq<string>): (r: string)
    requires |xs| > 0
    ensures r in xs
    ensures forall x :: x in xs ==> LexLessEq(r, x)
  {
    if |xs| == 1 then
      LexReflexive(xs[0]);
      xs[0]
    else
      var m := Least(xs[1..]);
      LexTotal(xs[0], m);
      LexReflexive(xs[0]);
      if LexLessEq(xs[0], m) then
        assert forall x :: x in xs[1..] ==> LexLessEq(xs[0], x) by {
          forall x | x in xs[1..] ensures LexLessEq(xs[0], x) { LexTransitive(xs[0], m, x); }
        }
        xs[0]
      else
        m
  }

  /** Only one member of a collection can be below all of its members. */
  lemma LeastUnique(xs: set<string>, a: string, b: string)
    requires a in xs && b in xs
    requires forall x :: x in xs ==> LexLessEq(a, x)
    requires forall x :: x in xs ==> LexLessEq(b, x)
    ensures a == b
  {
    LexAntisymmetric(a, b);
  }

  function DecimalDigit(d: nat): (c: char)
    requires d < 10
    ensures '0' <= c <= '9'
  {
    ((('0' as int) + d) as char)
  }

  predicate IsDecimal(s: string)
  {
    |s| > 0 && forall k :: 0 <= k < |s| ==> '0' <= s[k] <= '9'
  }

  /** The number an all-digit string spells in base ten. */
  function DecimalValue(s: string): nat
    requires forall k :: 0 <= k < |s| ==> '0' <= s[k] <= '9'
  {
    if |s| == 0 then 0
    else 10 * DecimalValue(s[..|s| - 1]) + (s[|s| - 1] as int - '0' as int)
  }

  /** Python's `str(n)` for a natural number: digits only, no leading zero, spelling `n`. */
  function Decimal(n: nat): (r: string)
    ensures IsDecimal(r)
    ensures |r| > 1 ==> r[0] != '0'
    ensures DecimalValue(r) == n
  {
    if n < 10 then
      [DecimalDigit(n)]
    else
      var r := Decimal(n / 10) + [DecimalDigit(n % 10)];
      assert r[..|r| - 1] == Decimal(n / 10);
      r
  }
}
