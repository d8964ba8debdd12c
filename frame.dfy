/**
  * The DataFrame operations the cleaning rules are built from, on a table
  * modelled as a sequence of rows: `dropna` on a column subset (Filter,
  * which on a text is also the character stripper `re.sub(r'[^...]', '', s)`),
  * `drop_duplicates` (DropDuplicatesBy, keeping the first occurrence),
  * column assignment (MapRows) and `apply` with a function that may raise
  * (TryMap).
  */
module Frame {
  import opened Wrappers

  /** Keep the rows that satisfy `keep`, in order (`dropna(subset=...)`). */
  function Filter<T>(s: seq<T>, keep: T -> bool): (r: seq<T>)
    ensures |r| <= |s|
    ensures forall i :: 0 <= i < |r| ==> keep(r[i])
  {
    if s == [] then [] else (if keep(s[0]) then [s[0]] else []) + Filter(s[1..], keep)
  }

  lemma {:induction false} FilterMembership<T>(s: seq<T>, keep: T -> bool)
    ensures forall x :: x in Filter(s, keep) <==> x in s && keep(x)
  {
    if s != [] {
      FilterMembership(s[1..], keep);
      assert s == [s[0]] + s[1..];
    }
  }

  /** When every row satisfies `keep`, nothing is dropped. */
  lemma {:induction false} FilterAll<T>(s: seq<T>, keep: T -> bool)
    requires forall i :: 0 <= i < |s| ==> keep(s[i])
    ensures Filter(s, keep) == s
  {
    if s != [] {
      assert keep(s[0]);
      FilterAll(s[1..], keep);
    }
  }

  /** `a` can be obtained from `b` by deleting elements. */
  predicate IsSubsequence<T(==)>(a: seq<T>, b: seq<T>)
    decreases |b|
  {
    a == [] || (b != [] && ((a[0] == b[0] && IsSubsequence(a[1..], b[1..])) || IsSubsequence(a, b[1..])))
  }

  /** The kept elements appear in the input in the same order. */
  lemma {:induction false} FilterIsSubsequence<T>(s: seq<T>, keep: T -> bool)
    ensures IsSubsequence(Filter(s, keep), s)
  {
    if s != [] {
      FilterIsSubsequence(s[1..], keep);
      var rest := Filter(s[1..], keep);
      if keep(s[0]) {
        assert Filter(s, keep) == [s[0]] + rest;
        assert ([s[0]] + rest)[1..] == rest;
      } else {
        assert Filter(s, keep) == rest;
      }
    }
  }

  /** Filtering distributes over concatenation. */
  lemma {:induction false} FilterAppend<T>(a: seq<T>, b: seq<T>, keep: T -> bool)
    ensures Filter(a + b, keep) == Filter(a, keep) + Filter(b, keep)
  {
    if a == [] {
      assert a + b == b;
    } else {
      var h: seq<T> := if keep(a[0]) then [a[0]] else [];
      calc {
        Filter(a + b, keep);
        { assert (a + b)[0] == a[0] && (a + b)[1..] == a[1..] + b; }
        h + Filter(a[1..] + b, keep);
        { FilterAppend(a[1..], b, keep); }
        h + (Filter(a[1..], keep) + Filter(b, keep));
        (h + Filter(a[1..], keep)) + Filter(b, keep);
      }
    }
  }

  /** Every element that satisfies `keep` is kept as often as it occurs; no other element is kept. */
  lemma {:induction false} FilterCounts<T>(s: seq<T>, keep: T -> bool)
    ensures forall x :: multiset(Filter(s, keep))[x] == if keep(x) then multiset(s)[x] else 0
  {
    if s != [] {
      FilterCounts(s[1..], keep);
      assert s == [s[0]] + s[1..];
      assert multiset(s) == multiset([s[0]]) + multiset(s[1..]);
      var head: seq<T> := if keep(s[0]) then [s[0]] else [];
      assert Filter(s, keep) == head + Filter(s[1..], keep);
      assert multiset(Filter(s, keep)) == multiset(head) + multiset(Filter(s[1..], keep));
    }
  }

  /** Nothing is kept exactly when no element satisfies `keep`. */
  lemma {:induction false} FilterEmpty<T>(s: seq<T>, keep: T -> bool)
    ensures Filter(s, keep) == [] <==> forall i :: 0 <= i < |s| ==> !keep(s[i])
  {
    if s != [] {
      FilterEmpty(s[1..], keep);
      assert forall i :: 1 <= i < |s| ==> s[i] == s[1..][i - 1];
    }
  }

  /** Apply `f` to every row. */
  function MapRows<A, B>(s: seq<A>, f: A -> B): (r: seq<B>)
  {
    seq(|s|, i requires 0 <= i < |s| => f(s[i]))
  }

  /** Assigning a column to two frames joined is joining the two results. */
  lemma MapRowsAppend<A, B>(a: seq<A>, b: seq<A>, f: A -> B)
    ensures MapRows(a + b, f) == MapRows(a, f) + MapRows(b, f)
  {
    assert |MapRows(a + b, f)| == |MapRows(a, f) + MapRows(b, f)|;
    forall i | 0 <= i < |a + b| ensures MapRows(a + b, f)[i] == (MapRows(a, f) + MapRows(b, f))[i] {
      if i < |a| {
        assert (a + b)[i] == a[i];
      } else {
        assert (a + b)[i] == b[i - |a|];
      }
    }
  }

  // ---------------------------------------------------------------------------
  // Row-by-row steps: what a row becomes, or None when a step drops it.

  /** The value of a present cell as a one-row frame, or no row. */
  function Present<T>(o: Option<T>): (r: seq<T>)
    ensures |r| <= 1
  {
    if o.Some? then [o.value] else []
  }

  /** The present values, in order, one for each `Some`. */
  function Somes<T>(s: seq<Option<T>>): (r: seq<T>)
    ensures |r| <= |s|
  {
    if s == [] then [] else Present(s[0]) + Somes(s[1..])
  }

  lemma {:induction false} SomesMembership<T>(s: seq<Option<T>>)
    ensures forall y :: y in Somes(s) <==> Some(y) in s
  {
    if s != [] {
      SomesMembership(s[1..]);
      assert s == [s[0]] + s[1..];
    }
  }

  /**
    * A frame step that treats each row on its own (it distributes over
    * joined frames) is fixed by what it does to one row: the rows it keeps,
    * in order, one for each input row that `f` keeps.
    */
  lemma {:induction false} RowByRow<A, B>(s: seq<A>, step: seq<A> -> seq<B>, f: A -> Option<B>)
    requires forall a: seq<A>, b: seq<A> :: step(a + b) == step(a) + step(b)
    requires forall x: A :: step([x]) == Present(f(x))
    ensures step(s) == Somes(MapRows(s, f))
  {
    if s == [] {
      var none: seq<A> := [];
      assert none + none == none;
      assert step(none) == step(none) + step(none);
      assert |step(none)| == 0;
    } else {
      RowByRow(s[1..], step, f);
      assert step([s[0]] + s[1..]) == step([s[0]]) + step(s[1..]);
      assert s == [s[0]] + s[1..];
      assert MapRows(s, f)[0] == f(s[0]);
      assert MapRows(s, f)[1..] == MapRows(s[1..], f);
    }
  }

  /** Column assignment on two rows. */
  lemma MapRowsPair<A, B>(a: A, b: A, f: A -> B)
    ensures MapRows([a, b], f) == [f(a), f(b)]
  {
    assert MapRows([a, b], f)[0] == f(a);
  }

  lemma MapMembership<A, B>(s: seq<A>, f: A -> B)
    ensures forall y :: y in MapRows(s, f) <==> exists x :: x in s && y == f(x)
  {
    forall y | y in MapRows(s, f) ensures exists x :: x in s && y == f(x) {
      var i :| 0 <= i < |s| && MapRows(s, f)[i] == y;
      assert s[i] in s;
    }
    forall y | exists x :: x in s && y == f(x) ensures y in MapRows(s, f) {
      var x :| x in s && y == f(x);
      var i :| 0 <= i < |s| && s[i] == x;
      assert MapRows(s, f)[i] == y;
    }
  }

  /**
    * `Series.apply(f)` where `f` may raise: the first row on which `f` fails
    * aborts the whole step with that row's error.
    */
  function TryMap<A, B, E>(s: seq<A>, f: A -> Result<B, E>): (r: Result<seq<B>, E>)
    ensures r.Ok? <==> forall i :: 0 <= i < |s| ==> f(s[i]).Ok?
    ensures r.Ok? ==> |r.value| == |s| && forall i :: 0 <= i < |s| ==> r.value[i] == f(s[i]).value
    ensures r.Err? ==> exists i :: 0 <= i < |s| && f(s[i]) == Err(r.error) && forall j :: 0 <= j < i ==> f(s[j]).Ok?
  {
    if s == [] then Ok([]) else
    match f(s[0])
    case Err(e) => Err(e)
    case Ok(y) =>
      match TryMap(s[1..], f)
      case Err(e) => Err(e)
      case Ok(ys) => Ok([y] + ys)
  }

  /** A successful `apply` holds exactly the results of its rows. */
  lemma TryMapMembership<A, B, E>(s: seq<A>, f: A -> Result<B, E>)
    requires TryMap(s, f).Ok?
    ensures forall y :: y in TryMap(s, f).value <==> exists x :: x in s && f(x) == Ok(y)
  {
    var r := TryMap(s, f).value;
    forall y | y in r ensures exists x :: x in s && f(x) == Ok(y) {
      var i :| 0 <= i < |r| && r[i] == y;
      assert s[i] in s;
    }
    forall y | exists x :: x in s && f(x) == Ok(y) ensures y in r {
      var x :| x in s && f(x) == Ok(y);
      var i :| 0 <= i < |s| && s[i] == x;
      assert r[i] == y;
    }
  }

  /** `apply` on two rows that both succeed. */
  lemma TryMapPair<A, B, E>(a: A, b: A, f: A -> Result<B, E>)
    requires f(a).Ok? && f(b).Ok?
    ensures TryMap([a, b], f) == Ok([f(a).value, f(b).value])
  {
    var x, y := f(a).value, f(b).value;
    assert [b][0] == b && [b][1..] == [];
    assert TryMap([b][1..], f) == Ok([]);
    assert TryMap([b], f) == Ok([y] + []);
    assert [y] + [] == [y];
    assert [a, b][0] == a && [a, b][1..] == [b];
    assert TryMap([a, b], f) == Ok([x] + [y]);
    assert [x] + [y] == [x, y];
  }

  // ---------------------------------------------------------------------------
  // Duplicates.

  predicate NoDuplicateKeys<T, K(==)>(s: seq<T>, key: T -> K) {
    forall i, j :: 0 <= i < j < |s| ==> key(s[i]) != key(s[j])
  }

  predicate HasKey<T, K(==)>(s: seq<T>, key: T -> K, k: K) {
    exists i :: 0 <= i < |s| && key(s[i]) == k
  }

  /** Key `a` occurs in `s` before any occurrence of key `b`. */
  ghost predicate Precedes<T, K>(s: seq<T>, key: T -> K, a: K, b: K) {
    exists p :: 0 <= p < |s| && key(s[p]) == a && forall q :: 0 <= q <= p ==> key(s[q]) != b
  }

  /**
    * `drop_duplicates(subset=...)` with `keep='first'`: a row is dropped when
    * an earlier row has the same key; the others keep their order.
    */
  function DropDuplicatesBy<T, K(==)>(s: seq<T>, key: T -> K): (r: seq<T>)
    ensures |r| <= |s|
    ensures forall x :: x in r ==> x in s
  {
    if s == [] then [] else
    var init := s[..|s| - 1];
    var last := s[|s| - 1];
    var r := DropDuplicatesBy(init, key);
    if HasKey(init, key, key(last)) then r else r + [last]
  }

  /** `x` is a row of `s` and no earlier row of `s` has its key. */
  ghost predicate IsFirstOfKey<T, K>(s: seq<T>, key: T -> K, x: T) {
    exists p :: 0 <= p < |s| && s[p] == x && forall q :: 0 <= q < p ==> key(s[q]) != key(x)
  }

  /** Every kept row is the first row of the input with its key (`keep='first'`). */
  lemma {:induction false} DropDuplicatesFirst<T, K>(s: seq<T>, key: T -> K)
    ensures forall i :: 0 <= i < |DropDuplicatesBy(s, key)| ==> IsFirstOfKey(s, key, DropDuplicatesBy(s, key)[i])
  {
    if s != [] {
      var init := s[..|s| - 1];
      var last := s[|s| - 1];
      DropDuplicatesFirst(init, key);
      var r0 := DropDuplicatesBy(init, key);
      var r := DropDuplicatesBy(s, key);
      forall i | 0 <= i < |r| ensures IsFirstOfKey(s, key, r[i]) {
        if i < |r0| {
          assert r[i] == r0[i] && IsFirstOfKey(init, key, r0[i]);
          var p :| 0 <= p < |init| && init[p] == r0[i] && forall q :: 0 <= q < p ==> key(init[q]) != key(r0[i]);
          forall q | 0 <= q < p ensures key(s[q]) != key(r[i]) {
            assert s[q] == init[q];
          }
          assert s[p] == r[i];
        } else {
          assert !HasKey(init, key, key(last)) && r[i] == last;
          forall q | 0 <= q < |s| - 1 ensures key(s[q]) != key(last) {
            assert s[q] == init[q];
          }
        }
      }
    }
  }

  /**
    * The kept rows carry every key of the input, each exactly once, and each
    * is the first row of the input with its key.
    */
  lemma {:induction false} DropDuplicatesKeys<T, K>(s: seq<T>, key: T -> K)
    ensures NoDuplicateKeys(DropDuplicatesBy(s, key), key)
    ensures forall k :: HasKey(DropDuplicatesBy(s, key), key, k) <==> HasKey(s, key, k)
    ensures forall i :: 0 <= i < |DropDuplicatesBy(s, key)| ==> IsFirstOfKey(s, key, DropDuplicatesBy(s, key)[i])
  {
    DropDuplicatesFirst(s, key);
    if s != [] {
      var init := s[..|s| - 1];
      var last := s[|s| - 1];
      DropDuplicatesKeys(init, key);
      var r := DropDuplicatesBy(init, key);
      forall k | HasKey(init, key, k) ensures HasKey(s, key, k) {
        var i :| 0 <= i < |init| && key(init[i]) == k;
        assert key(s[i]) == k;
      }
      forall k | HasKey(s, key, k) ensures HasKey(DropDuplicatesBy(s, key), key, k) {
        var i :| 0 <= i < |s| && key(s[i]) == k;
        var res := DropDuplicatesBy(s, key);
        if i < |init| {
          assert key(init[i]) == k;
          assert HasKey(r, key, k);
          var m :| 0 <= m < |r| && key(r[m]) == k;
          assert res[m] == r[m];
        } else if !HasKey(init, key, key(last)) {
          assert DropDuplicatesBy(s, key)[|r|] == last;
        } else {
          assert HasKey(r, key, k);
        }
      }
      if !HasKey(init, key, key(last)) {
        var r' := r + [last];
        forall i | 0 <= i < |r| ensures key(r'[i]) != key(last) {
          assert HasKey(r, key, key(r[i]));
        }
      }
    }
  }

  /** The keys of `r` come in the order of their first occurrence in `s`. */
  ghost predicate InFirstOccurrenceOrder<T, K>(s: seq<T>, r: seq<T>, key: T -> K) {
    forall i, j :: 0 <= i < j < |r| ==> Precedes(s, key, key(r[i]), key(r[j]))
  }

  /** Keys keep the order of their first occurrence in the input. */
  lemma {:induction false} DropDuplicatesOrder<T, K>(s: seq<T>, key: T -> K)
    ensures InFirstOccurrenceOrder(s, DropDuplicatesBy(s, key), key)
  {
    if s != [] {
      var init := s[..|s| - 1];
      var last := s[|s| - 1];
      DropDuplicatesOrder(init, key);
      DropDuplicatesKeys(init, key);
      var r0 := DropDuplicatesBy(init, key);
      var r := DropDuplicatesBy(s, key);
      forall i, j | 0 <= i < j < |r| ensures Precedes(s, key, key(r[i]), key(r[j])) {
        assert r[i] == r0[i];
        if j == |r0| {
          assert r == r0 + [last] && r[j] == last;
          assert HasKey(r0, key, key(r0[i]));
          var p :| 0 <= p < |init| && key(init[p]) == key(r0[i]);
          assert key(s[p]) == key(r0[i]);
          forall q | 0 <= q <= p ensures key(s[q]) != key(last) {
            assert s[q] == init[q];
          }
        } else {
          assert r[j] == r0[j];
          assert Precedes(init, key, key(r0[i]), key(r0[j]));
          var p :| 0 <= p < |init| && key(init[p]) == key(r0[i]) && forall q :: 0 <= q <= p ==> key(init[q]) != key(r0[j]);
          assert key(s[p]) == key(r0[i]);
          forall q | 0 <= q <= p ensures key(s[q]) != key(r0[j]) {
            assert s[q] == init[q];
          }
        }
      }
    }
  }

  /** With no repeated key there is nothing to drop. */
  lemma {:induction false} DropDuplicatesNone<T, K>(s: seq<T>, key: T -> K)
    requires NoDuplicateKeys(s, key)
    ensures DropDuplicatesBy(s, key) == s
  {
    if s != [] {
      var init := s[..|s| - 1];
      assert NoDuplicateKeys(init, key);
      DropDuplicatesNone(init, key);
      forall i | 0 <= i < |init| ensures key(init[i]) != key(s[|s| - 1]) {
        assert init[i] == s[i];
      }
    }
  }

  /** Dropping duplicates twice is dropping them once. */
  lemma DropDuplicatesIdempotent<T, K>(s: seq<T>, key: T -> K)
    ensures DropDuplicatesBy(DropDuplicatesBy(s, key), key) == DropDuplicatesBy(s, key)
  {
    DropDuplicatesKeys(s, key);
    DropDuplicatesNone(DropDuplicatesBy(s, key), key);
  }

  /** The whole row is the key: `drop_duplicates()` with no subset. */
  function Identity<T>(x: T): (r: T) {
    x
  }

  function DropDuplicates<T(==)>(s: seq<T>): (r: seq<T>) {
    DropDuplicatesBy(s, Identity)
  }

  predicate NoDuplicates<T(==)>(s: seq<T>) {
    forall i, j :: 0 <= i < j < |s| ==> s[i] != s[j]
  }

  /** No repeated row is no repeated key when the whole row is the key. */
  lemma NoDuplicatesAsKeys<T>(s: seq<T>)
    ensures NoDuplicates(s) <==> NoDuplicateKeys(s, Identity)
  {
    forall i, j | 0 <= i < j < |s| ensures (s[i] != s[j]) == (Identity(s[i]) != Identity(s[j])) {
    }
  }

  /** A prefix of a sequence without repeats has none either. */
  lemma PrefixDistinct<T>(s: seq<T>, k: nat)
    requires k <= |s| && NoDuplicates(s)
    ensures NoDuplicates(s[..k])
  {
    forall i, j | 0 <= i < j < k ensures s[..k][i] != s[..k][j] {
      assert s[..k][i] == s[i] && s[..k][j] == s[j];
    }
  }

  /** Two different rows are both kept. */
  lemma DropDuplicatesPair<T>(a: T, b: T)
    requires a != b
    ensures DropDuplicates([a, b]) == [a, b]
  {
    assert Identity(a) != Identity(b);
    DropDuplicatesNone([a, b], Identity);
  }

  /**
    * `drop_duplicates()` keeps one copy of every row, no two equal rows, and
    * the rows in the order of their first occurrence.
    */
  lemma DropDuplicatesMeaning<T>(s: seq<T>)
    ensures var r := DropDuplicates(s);
      NoDuplicates(r)
      && (forall x :: x in r <==> x in s)
      && forall i, j :: 0 <= i < j < |r| ==> Precedes(s, Identity, r[i], r[j])
  {
    var r := DropDuplicates(s);
    DropDuplicatesKeys(s, Identity);
    DropDuplicatesOrder(s, Identity);
    forall x | x in s ensures x in r {
      var i :| 0 <= i < |s| && s[i] == x;
      assert Identity(s[i]) == x;
      assert HasKey(r, Identity, x);
    }
    forall i, j | 0 <= i < j < |r| ensures r[i] != r[j] && Precedes(s, Identity, r[i], r[j]) {
      assert Identity(r[i]) == r[i] && Identity(r[j]) == r[j];
    }
  }
}
