/** Tables: the row-sequence vocabulary shared by the cleaning scripts.
    A data frame is a sequence of records; a cell that pandas may hold as
    NaN/None is an `Option`. */
module Tables {

  /** A cell that may be null (NaN in a pandas frame). */
  datatype Option<+T> = None | Some(value: T)

  /** The outcome of a stage that may raise: a value, or the error it raises. */
  datatype Result<+T, +E> = Success(value: T) | Failure(error: E)

  /** Boolean-mask row selection `df[mask]` and `dropna`: the rows satisfying `p`,
      in their original order (see KeepAppend), each kept as often as it occurs. */
  function Keep<T(!new)>(s: seq<T>, p: T -> bool): (r: seq<T>)
    ensures |r| <= |s|
    ensures forall x :: x in r <==> x in s && p(x)
  {
    if |s| == 0 then []
    else
      assert s == [s[0]] + s[1..];
      (if p(s[0]) then [s[0]] else []) + Keep(s[1..], p)
  }

  /** No two rows share the key `f`. */
  predicate DistinctBy<T, K(==)>(s: seq<T>, f: T -> K)
  {
    forall i, j :: 0 <= i < j < |s| ==> f(s[i]) != f(s[j])
  }

  /** Selection keeps a key column distinct: if no two rows share the key `f`, no two
      kept rows do. */
  lemma {:induction false} KeepDistinct<T(!new), K>(s: seq<T>, p: T -> bool, f: T -> K)
    requires DistinctBy(s, f)
    ensures DistinctBy(Keep(s, p), f)
  {
    if |s| > 0 {
      var tail := s[1..];
      assert DistinctBy(tail, f) by {
        forall i, j | 0 <= i < j < |tail| ensures f(tail[i]) != f(tail[j]) {
          assert tail[i] == s[i + 1] && tail[j] == s[j + 1];
        }
      }
      KeepDistinct(tail, p, f);
      var rest := Keep(tail, p);
      var r := Keep(s, p);
      if p(s[0]) {
        assert r == [s[0]] + rest;
        forall i, j | 0 <= i < j < |r| ensures f(r[i]) != f(r[j]) {
          assert r[j] == rest[j - 1];
          if i > 0 {
            assert r[i] == rest[i - 1];
          } else {
            assert rest[j - 1] in rest;
            var k :| 0 <= k < |tail| && tail[k] == rest[j - 1];
            assert s[k + 1] == r[j];
          }
        }
      } else {
        assert r == rest;
      }
    }
  }

  /** Two blocks with distinct keys, and no key shared between them, concatenate to a
      block with distinct keys. */
  lemma DistinctAppend<T, K>(a: seq<T>, b: seq<T>, f: T -> K)
    requires DistinctBy(a, f) && DistinctBy(b, f)
    requires forall i, j :: 0 <= i < |a| && 0 <= j < |b| ==> f(a[i]) != f(b[j])
    ensures DistinctBy(a + b, f)
  {
    var c := a + b;
    forall i, j | 0 <= i < j < |c| ensures f(c[i]) != f(c[j]) {
      if j < |a| {
        assert c[i] == a[i] && c[j] == a[j];
      } else if i < |a| {
        assert c[i] == a[i] && c[j] == b[j - |a|];
      } else {
        assert c[i] == b[i - |a|] && c[j] == b[j - |a|];
      }
    }
  }

  /** Each row passing the mask is kept exactly as often as it occurs; no other row is. */
  lemma {:induction false} KeepCount<T(!new)>(s: seq<T>, p: T -> bool)
    ensures forall x :: multiset(Keep(s, p))[x] == if p(x) then multiset(s)[x] else 0
  {
    if |s| > 0 {
      KeepCount(s[1..], p);
      assert s == [s[0]] + s[1..];
    }
  }

  /** Selection distributes over concatenation: the survivors of an earlier
      block of rows all come before the survivors of a later block. */
  lemma {:induction false} KeepAppend<T(!new)>(a: seq<T>, b: seq<T>, p: T -> bool)
    ensures Keep(a + b, p) == Keep(a, p) + Keep(b, p)
  {
    if |a| == 0 {
      assert a + b == b;
    } else {
      assert (a + b)[1..] == a[1..] + b;
      KeepAppend(a[1..], b, p);
    }
  }

  /** A row that passes the mask is kept, and only such rows. Together with
      KeepAppend this pins `Keep(s, p)` down completely. */
  lemma KeepSingleton<T(!new)>(x: T, p: T -> bool)
    ensures Keep([x], p) == if p(x) then [x] else []
  {
    assert [x][1..] == [];
  }

  /** Selection on a table with one more row in front. */
  lemma KeepCons<T(!new)>(x: T, s: seq<T>, p: T -> bool)
    ensures Keep([x] + s, p) == (if p(x) then [x] else []) + Keep(s, p)
  {
    assert ([x] + s)[1..] == s;
  }

  /** A mask every row passes keeps the whole table. */
  lemma {:induction false} KeepAll<T(!new)>(s: seq<T>, p: T -> bool)
    requires forall i :: 0 <= i < |s| ==> p(s[i])
    ensures Keep(s, p) == s
  {
    if |s| > 0 {
      KeepAll(s[1..], p);
      assert s == [s[0]] + s[1..];
    }
  }

  /** A mask no row passes keeps nothing. */
  lemma {:induction false} KeepNone<T(!new)>(s: seq<T>, p: T -> bool)
    requires forall i :: 0 <= i < |s| ==> !p(s[i])
    ensures Keep(s, p) == []
  {
    if |s| > 0 {
      KeepNone(s[1..], p);
    }
  }

  /** The positions, below `n`, of the entries satisfying `p`, left to right
      (a list comprehension over the columns with a condition on the label). */
  function PositionsBelow<T>(s: seq<T>, p: T -> bool, n: nat): (r: seq<nat>)
    requires n <= |s|
    ensures forall k :: 0 <= k < |r| ==> r[k] < n && p(s[r[k]])
    ensures forall c :: 0 <= c < n && p(s[c]) ==> c in r
    ensures forall k, l :: 0 <= k < l < |r| ==> r[k] < r[l]
  {
    if n == 0 then []
    else
      var front := PositionsBelow(s, p, n - 1);
      if p(s[n - 1]) then front + [n - 1] else front
  }

  /** The positions of the entries satisfying `p`, left to right. */
  function Positions<T>(s: seq<T>, p: T -> bool): (r: seq<nat>)
    ensures forall k :: 0 <= k < |r| ==> r[k] < |s| && p(s[r[k]])
    ensures forall c :: 0 <= c < |s| && p(s[c]) ==> c in r
    ensures forall k, l :: 0 <= k < l < |r| ==> r[k] < r[l]
  {
    PositionsBelow(s, p, |s|)
  }

  /** `pd.concat` of a list of frames, in list order. */
  function Flatten<T>(frames: seq<seq<T>>): (r: seq<T>)
  {
    if |frames| == 0 then [] else Flatten(frames[..|frames| - 1]) + frames[|frames| - 1]
  }

  /** Appending a frame to the list appends its rows to the concatenation. */
  lemma FlattenSnoc<T>(frames: seq<seq<T>>, last: seq<T>)
    ensures Flatten(frames + [last]) == Flatten(frames) + last
  {
    assert (frames + [last])[..|frames|] == frames;
  }

  /** The non-null values of a column, in order (what pandas' `mean` averages). */
  function Present(cells: seq<Option<real>>): (r: seq<real>)
    ensures |r| <= |cells|
    ensures forall x :: x in r <==> Some(x) in cells
  {
    if |cells| == 0 then []
    else
      assert cells == [cells[0]] + cells[1..];
      (if cells[0].Some? then [cells[0].value] else []) + Present(cells[1..])
  }

  function Sum(xs: seq<real>): real
  {
    if |xs| == 0 then 0.0 else xs[0] + Sum(xs[1..])
  }

  /** pandas `mean` with its default `skipna=True`: the average of the non-null
      values, and null when there are none. */
  function Mean(cells: seq<Option<real>>): (r: Option<real>)
    ensures r.None? <==> forall c :: c in cells ==> c.None?
  {
    var xs := Present(cells);
    if |xs| == 0 then
      None
    else
      assert xs[0] in xs;
      Some(Sum(xs) / |xs| as real)
  }

  lemma {:induction false} SumBounds(xs: seq<real>, lo: real, hi: real)
    requires forall i :: 0 <= i < |xs| ==> lo <= xs[i] <= hi
    ensures |xs| as real * lo <= Sum(xs) <= |xs| as real * hi
  {
    if |xs| > 0 {
      SumBounds(xs[1..], lo, hi);
    }
  }

  /** The mean lies between the least and the greatest non-null value. */
  lemma MeanWithin(cells: seq<Option<real>>, lo: real, hi: real)
    requires forall c :: c in cells && c.Some? ==> lo <= c.value <= hi
    ensures Mean(cells).Some? ==> lo <= Mean(cells).value <= hi
  {
    var xs := Present(cells);
    if |xs| > 0 {
      forall i | 0 <= i < |xs| ensures lo <= xs[i] <= hi {
        assert xs[i] in xs;
        assert Some(xs[i]) in cells;
      }
      SumBounds(xs, lo, hi);
      QuotientBounds(Sum(xs), |xs| as real, lo, hi);
    }
  }

  lemma QuotientBounds(s: real, n: real, lo: real, hi: real)
    requires n > 0.0 && n * lo <= s <= n * hi
    ensures lo <= s / n <= hi
  {
    assert (s / n) * n == s;
  }

  /** The number of non-null cells of a column (pandas `notna().sum()`). */
  function CountPresent<T>(cells: seq<Option<T>>): (r: nat)
    ensures r <= |cells|
    ensures r == 0 <==> forall i :: 0 <= i < |cells| ==> cells[i].None?
    ensures r == |cells| <==> forall i :: 0 <= i < |cells| ==> cells[i].Some?
  {
    if |cells| == 0 then 0
    else
      var rest := CountPresent(cells[1..]);
      assert forall i :: 1 <= i < |cells| ==> cells[i] == cells[1..][i - 1];
      (if cells[0].Some? then 1 else 0) + rest
  }

  /** Non-null counts add up over concatenated columns. */
  lemma {:induction false} CountPresentAppend<T>(a: seq<Option<T>>, b: seq<Option<T>>)
    ensures CountPresent(a + b) == CountPresent(a) + CountPresent(b)
  {
    if |a| == 0 {
      assert a + b == b;
    } else {
      assert (a + b)[1..] == a[1..] + b;
      CountPresentAppend(a[1..], b);
    }
  }
}
