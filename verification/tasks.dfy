/**
 The task record of the grouping engine and the sort of its leaf lists by task key.
 Python's `list.sort(key=...)` is stable: the result is sorted, a permutation of the
 input, and records with equal keys keep their relative order. `SortByKey` is an
 insertion sort with exactly those three properties, and `StableSortUnique` shows that
 they determine the result, so any stable sort gives the same list.
 */
module Tasks {
  import opened Text

  /** One row's record in a bucket: the issue key, the customer description, the install instructions. */
  datatype Task = Task(key: string, custDesc: string, installInstr: string)

  predicate SortedByKey(s: seq<Task>)
  {
    forall i, j :: 0 <= i < j < |s| ==> LexLessEq(s[i].key, s[j].key)
  }

  /** The records of `s` whose key is `k`, in their order in `s`. */
  function WithKey(s: seq<Task>, k: string): seq<Task>
  {
    if |s| == 0 then []
    else (if s[0].key == k then [s[0]] else []) + WithKey(s[1..], k)
  }

  lemma SortedFront(t: Task, s: seq<Task>)
    requires SortedByKey(s) && |s| > 0 && LexLessEq(t.key, s[0].key)
    ensures SortedByKey([t] + s)
  {
    forall j | 0 <= j < |s| ensures LexLessEq(t.key, s[j].key) {
      if j > 0 { LexTransitive(t.key, s[0].key, s[j].key); }
    }
  }

  lemma SortedBehind(t: Task, s: seq<Task>, rest: seq<Task>)
    requires SortedByKey(s) && |s| > 0 && !LexLessEq(t.key, s[0].key)
    requires SortedByKey(rest) && multiset(rest) == multiset(s[1..]) + multiset{t}
    ensures SortedByKey([s[0]] + rest)
  {
    LexTotal(t.key, s[0].key);
    forall j | 0 <= j < |rest| ensures LexLessEq(s[0].key, rest[j].key) {
      assert rest[j] in multiset(rest);
      if rest[j] != t {
        assert rest[j] in multiset(s[1..]);
        var i :| 0 <= i < |s[1..]| && s[1..][i] == rest[j];
        assert s[i + 1] == rest[j];
      }
    }
  }

  /** Places `t` before the first record whose key is not below it, so after any equal keys already there. */
  function InsertByKey(t: Task, s: seq<Task>): (r: seq<Task>)
    requires SortedByKey(s)
    ensures SortedByKey(r)
    ensures multiset(r) == multiset(s) + multiset{t}
  {
    if |s| == 0 then [t]
    else if LexLessEq(t.key, s[0].key) then
      SortedFront(t, s);
      [t] + s
    else
      var rest := InsertByKey(t, s[1..]);
      SortedBehind(t, s, rest);
      assert s == [s[0]] + s[1..];
      [s[0]] + rest
  }

  lemma WithKeyConcat(a: seq<Task>, b: seq<Task>, k: string)
    ensures WithKey(a + b, k) == WithKey(a, k) + WithKey(b, k)
  {
    if |a| > 0 {
      assert (a + b)[1..] == a[1..] + b;
      WithKeyConcat(a[1..], b, k);
    } else {
      assert a + b == b;
    }
  }

  /** Moving `t` behind a record `h` that does not share key `k` with it leaves the records of key `k` in order. */
  lemma SwapPast(h: Task, t: Task, rest: seq<Task>, tail: seq<Task>, k: string)
    requires WithKey(rest, k) == WithKey([t] + tail, k)
    requires !(h.key == k && t.key == k)
    ensures WithKey([h] + rest, k) == WithKey([t] + ([h] + tail), k)
  {
    var wh, wt, wr := WithKey([h], k), WithKey([t], k), WithKey(tail, k);
    WithKeyConcat([t], tail, k);
    WithKeyConcat([h], rest, k);
    WithKeyConcat([h], tail, k);
    WithKeyConcat([t], [h] + tail, k);
    assert wh == [] || wt == [];
  }

  /** In a sorted list, inserting `t` keeps every key's records in the order of `[t] + s`. */
  lemma {:induction false} InsertKeepsKeyOrder(t: Task, s: seq<Task>, k: string)
    requires SortedByKey(s)
    ensures WithKey(InsertByKey(t, s), k) == WithKey([t] + s, k)
    decreases |s|
  {
    if |s| > 0 && !LexLessEq(t.key, s[0].key) {
      InsertKeepsKeyOrder(t, s[1..], k);
      if s[0].key == k && t.key == k {
        LexReflexive(k);
      }
      SwapPast(s[0], t, InsertByKey(t, s[1..]), s[1..], k);
      assert s == [s[0]] + s[1..];
    } else {
      assert InsertByKey(t, s) == [t] + s;
    }
  }

  lemma SortStep(s: seq<Task>, rest: seq<Task>, k: string)
    requires |s| > 0 && SortedByKey(rest) && WithKey(rest, k) == WithKey(s[1..], k)
    ensures WithKey(InsertByKey(s[0], rest), k) == WithKey(s, k)
  {
    InsertKeepsKeyOrder(s[0], rest, k);
    WithKeyConcat([s[0]], rest, k);
    WithKeyConcat([s[0]], s[1..], k);
    assert s == [s[0]] + s[1..];
  }

  /** Python's stable `sort(key=lambda x: x['key'])`. */
  function SortByKey(s: seq<Task>): (r: seq<Task>)
    ensures SortedByKey(r)
    ensures multiset(r) == multiset(s)
    ensures forall k :: WithKey(r, k) == WithKey(s, k)
  {
    if |s| == 0 then []
    else
      var rest := SortByKey(s[1..]);
      var r := InsertByKey(s[0], rest);
      assert s == [s[0]] + s[1..];
      assert forall k :: WithKey(r, k) == WithKey(s, k) by {
        forall k ensures WithKey(r, k) == WithKey(s, k) { SortStep(s, rest, k); }
      }
      r
  }

  /** The first record of a sorted list that has the least key is the first record with that key. */
  lemma HeadOfKey(a: seq<Task>)
    requires |a| > 0
    ensures WithKey(a, a[0].key) == [a[0]] + WithKey(a[1..], a[0].key)
  {
  }

  lemma KeyPresent(s: seq<Task>, k: string)
    requires exists i :: 0 <= i < |s| && s[i].key == k
    ensures |WithKey(s, k)| > 0
  {
    if s[0].key != k {
      var i :| 0 <= i < |s| && s[i].key == k;
      assert s[1..][i - 1].key == k;
      KeyPresent(s[1..], k);
    }
  }

  lemma DropHead(a: seq<Task>, b: seq<Task>, k: string)
    requires |a| > 0 && |b| > 0 && a[0] == b[0]
    requires WithKey(a, k) == WithKey(b, k)
    ensures WithKey(a[1..], k) == WithKey(b[1..], k)
  {
    var p := if a[0].key == k then [a[0]] else [];
    assert WithKey(a, k) == p + WithKey(a[1..], k);
    assert WithKey(b, k) == p + WithKey(b[1..], k);
    assert WithKey(a[1..], k) == WithKey(a, k)[|p|..];
  }

  lemma {:induction false} WithKeyMember(s: seq<Task>, k: string, t: Task)
    requires t in WithKey(s, k)
    ensures t in s && t.key == k
  {
    if s[0] != t || s[0].key != k {
      WithKeyMember(s[1..], k, t);
    }
  }

  /** The head of a sorted list is at or below every key in it. */
  lemma HeadLeast(a: seq<Task>, t: Task)
    requires SortedByKey(a) && |a| > 0 && t in a
    ensures LexLessEq(a[0].key, t.key)
  {
    var i :| 0 <= i < |a| && a[i] == t;
    if i == 0 { LexReflexive(t.key); }
  }

  /** Two sorted lists with the same records per key start with the same record. */
  lemma SameHead(a: seq<Task>, b: seq<Task>)
    requires SortedByKey(a) && SortedByKey(b) && |a| > 0 && |b| > 0
    requires forall k :: WithKey(a, k) == WithKey(b, k)
    ensures a[0] == b[0]
  {
    // a's head occurs in b, so b's head key is below it, and the other way round.
    KeyPresent(a, a[0].key);
    assert a[0] in WithKey(b, a[0].key);
    WithKeyMember(b, a[0].key, a[0]);
    KeyPresent(b, b[0].key);
    assert b[0] in WithKey(a, b[0].key);
    WithKeyMember(a, b[0].key, b[0]);
    HeadLeast(b, a[0]);
    HeadLeast(a, b[0]);
    LexAntisymmetric(a[0].key, b[0].key);
    var k0 := a[0].key;
    HeadOfKey(a);
    HeadOfKey(b);
    assert WithKey(a, k0)[0] == a[0];
    assert WithKey(b, k0)[0] == b[0];
  }

  /** Sortedness and per-key order pin the list down: any two stable sorts of one list agree. */
  lemma {:induction false} StableSortUnique(a: seq<Task>, b: seq<Task>)
    requires SortedByKey(a) && SortedByKey(b)
    requires forall k :: WithKey(a, k) == WithKey(b, k)
    ensures a == b
    decreases |a|
  {
    if |a| == 0 {
      if |b| > 0 {
        KeyPresent(b, b[0].key);
      }
    } else if |b| == 0 {
      KeyPresent(a, a[0].key);
    } else {
      SameHead(a, b);
      assert SortedByKey(a[1..]) && SortedByKey(b[1..]);
      forall k ensures WithKey(a[1..], k) == WithKey(b[1..], k) {
        DropHead(a, b, k);
      }
      StableSortUnique(a[1..], b[1..]);
      assert a == [a[0]] + a[1..] && b == [b[0]] + b[1..];
    }
  }

  lemma WithKeyThree(a: Task, b: Task, c: Task, k: string)
    ensures WithKey([a, b, c], k) == WithKey([a], k) + WithKey([b], k) + WithKey([c], k)
  {
    WithKeyConcat([a], [b, c], k);
    WithKeyConcat([b], [c], k);
    assert [a] + [b, c] == [a, b, c] && [b] + [c] == [b, c];
  }

  /** Moving a record whose key no other record shares leaves every key's records in the same order. */
  lemma RotateKeepsKeyOrder(a: Task, b: Task, c: Task, k: string)
    requires a.key != b.key && a.key != c.key
    ensures WithKey([a, b, c], k) == WithKey([b, c, a], k)
  {
    WithKeyThree(a, b, c, k);
    WithKeyThree(b, c, a, k);
  }

  /** String order puts "A-10" before "B-2". */
  lemma SortExample()
    ensures var t1, t2, t3 := Task("B-2", "", ""), Task("A-1", "", ""), Task("A-10", "", "");
            SortByKey([t1, t2, t3]) == [t2, t3, t1]
  {
    var t1, t2, t3 := Task("B-2", "", ""), Task("A-1", "", ""), Task("A-10", "", "");
    var s := [t1, t2, t3];
    var expected := [t2, t3, t1];
    assert LexLessEq("A-1", "A-10") && LexLessEq("A-10", "B-2") && LexLessEq("A-1", "B-2");
    assert SortedByKey(expected);
    forall k ensures WithKey(SortByKey(s), k) == WithKey(expected, k) {
      RotateKeepsKeyOrder(t1, t2, t3, k);
    }
    StableSortUnique(SortByKey(s), expected);
  }
}
