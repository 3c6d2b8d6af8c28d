/** Last-wins deduplication of rows by a string key; rows without a key drop out. */
module Keyed {
  import Sorting

  /** The last row of each key, in order of the key's first row. */
  function LastWins<T>(rows: seq<T>, key: T -> string): seq<T> {
    if rows == [] then []
    else Replace(LastWins(rows[..|rows|-1], key), rows[|rows|-1], key)
  }

  function Replace<T>(out: seq<T>, d: T, key: T -> string): seq<T> {
    if key(d) == "" then out
    else if out == [] then [d]
    else if key(out[0]) == key(d) then [d] + out[1..]
    else [out[0]] + Replace(out[1..], d, key)
  }

  predicate Distinct<T>(out: seq<T>, key: T -> string) {
    && (forall i :: 0 <= i < |out| ==> key(out[i]) != "")
    && (forall i, j :: 0 <= i < j < |out| ==> key(out[i]) != key(out[j]))
  }

  lemma {:induction false} ReplaceAt<T>(out: seq<T>, d: T, key: T -> string, k: nat)
    requires key(d) != "" && k <= |out|
    requires forall i :: 0 <= i < k ==> key(out[i]) != key(d)
    requires k < |out| ==> key(out[k]) == key(d)
    ensures Replace(out, d, key) == if k < |out| then out[k := d] else out + [d]
  {
    if k > 0 {
      ReplaceAt(out[1..], d, key, k - 1);
      assert out == [out[0]] + out[1..];
    }
  }

  /** Where d's key stands in out, or the end. */
  function Find<T>(out: seq<T>, d: T, key: T -> string): (k: nat)
    ensures k <= |out|
    ensures forall i :: 0 <= i < k ==> key(out[i]) != key(d)
    ensures k < |out| ==> key(out[k]) == key(d)
  {
    if out == [] || key(out[0]) == key(d) then 0 else 1 + Find(out[1..], d, key)
  }

  lemma ReplaceKeeps<T>(out: seq<T>, d: T, key: T -> string)
    requires Distinct(out, key) && key(d) != ""
    ensures Distinct(Replace(out, d, key), key)
    ensures forall x :: x in Replace(out, d, key) <==> x == d || (x in out && key(x) != key(d))
  {
    var k := Find(out, d, key);
    ReplaceAt(out, d, key, k);
    var r := Replace(out, d, key);
    assert r[k] == d && forall i :: 0 <= i < |out| && i != k ==> r[i] == out[i];
    forall x | x in out && key(x) != key(d) ensures x in r {
      var i :| 0 <= i < |out| && out[i] == x;
      assert r[i] == x;
    }
    forall x | x in r && x != d ensures x in out && key(x) != key(d) {
      var i :| 0 <= i < |r| && r[i] == x;
      assert out[i] == x;
    }
  }

  /** d stands in rows with no later row of its key. */
  predicate IsLast<T(==)>(rows: seq<T>, d: T, key: T -> string) {
    exists i :: 0 <= i < |rows| && rows[i] == d && NoLater(rows, i, key)
  }

  predicate NoLater<T>(rows: seq<T>, i: nat, key: T -> string)
    requires i < |rows|
  {
    forall j :: i < j < |rows| ==> key(rows[j]) != key(rows[i])
  }

  lemma IsLastAppend<T>(front: seq<T>, last: T, d: T, key: T -> string)
    ensures IsLast(front + [last], d, key) <==> d == last || (IsLast(front, d, key) && key(last) != key(d))
  {
    var rows := front + [last];
    assert rows[|front|] == last && NoLater(rows, |front|, key);
    assert forall j :: 0 <= j < |front| ==> rows[j] == front[j];
    if IsLast(front, d, key) && key(last) != key(d) {
      var i :| 0 <= i < |front| && front[i] == d && NoLater(front, i, key);
      assert rows[i] == d && NoLater(rows, i, key);
    }
    if IsLast(rows, d, key) && d != last {
      var i :| 0 <= i < |rows| && rows[i] == d && NoLater(rows, i, key);
      forall j | i < j < |front| ensures key(front[j]) != key(front[i]) {
        assert key(rows[j]) != key(rows[i]);
      }
      assert front[i] == d && NoLater(front, i, key);
      assert key(rows[|front|]) != key(rows[i]);
    }
  }

  /** A row survives if and only if it has a key and is the last of its key. */
  lemma {:induction false} LastWinsExactly<T>(rows: seq<T>, key: T -> string)
    ensures Distinct(LastWins(rows, key), key)
    ensures forall d :: d in LastWins(rows, key) <==> key(d) != "" && IsLast(rows, d, key)
  {
    if rows != [] {
      var front, last := rows[..|rows|-1], rows[|rows|-1];
      LastWinsExactly(front, key);
      assert rows == front + [last];
      if key(last) != "" {
        ReplaceKeeps(LastWins(front, key), last, key);
      }
      forall d ensures d in LastWins(rows, key) <==> key(d) != "" && IsLast(rows, d, key) {
        IsLastAppend(front, last, d, key);
      }
    }
  }

  /** index gives the position of every key of out. */
  ghost predicate Indexes<T(!new)>(index: map<string, nat>, out: seq<T>, key: T -> string) {
    && (forall k :: k in index ==> index[k] < |out| && key(out[index[k]]) == k)
    && (forall i :: 0 <= i < |out| ==> key(out[i]) in index)
  }

  lemma NextWins<T>(rows: seq<T>, d: T, key: T -> string)
    ensures LastWins(rows + [d], key) == Replace(LastWins(rows, key), d, key)
  {
    assert (rows + [d])[..|rows|] == rows;
  }

  lemma MergeNext<T(!new)>(out: seq<T>, index: map<string, nat>, d: T, key: T -> string)
    requires Distinct(out, key) && Indexes(index, out, key) && key(d) != ""
    ensures var k := key(d);
            if k in index then
              Replace(out, d, key) == out[index[k] := d] && Indexes(index, out[index[k] := d], key)
            else
              Replace(out, d, key) == out + [d] && Indexes(index[k := |out|], out + [d], key)
  {
    ReplaceAt(out, d, key, if key(d) in index then index[key(d)] else |out|);
  }

  /** The loop: rows are written over the earlier row of their key, or appended. */
  method MergeInto<T(!new)>(ghost seen: seq<T>, rows: seq<T>, out: seq<T>, index: map<string, nat>, key: T -> string)
      returns (out': seq<T>, index': map<string, nat>)
    requires out == LastWins(seen, key) && Indexes(index, out, key)
    ensures out' == LastWins(seen + rows, key) && Indexes(index', out', key)
  {
    out', index' := out, index;
    assert seen + rows[..0] == seen;
    for i := 0 to |rows|
      invariant out' == LastWins(seen + rows[..i], key) && Indexes(index', out', key)
    {
      assert seen + rows[..i+1] == (seen + rows[..i]) + [rows[i]];
      LastWinsExactly(seen + rows[..i], key);
      NextWins(seen + rows[..i], rows[i], key);
      var dep := rows[i];
      var k := key(dep);
      if k == "" {
        continue;
      }
      MergeNext(out', index', dep, key);
      if k in index' {
        out' := out'[index'[k] := dep];
      } else {
        index' := index'[k := |out'|];
        out' := out' + [dep];
      }
    }
    assert rows[..|rows|] == rows;
  }

  /** Rows with distinct keys, under an order in which ties share a key, have only
      one ordered arrangement. */
  lemma OneArrangement<T(!new)>(rows: seq<T>, other: seq<T>, key: T -> string, less: (T, T) -> bool)
    requires Distinct(rows, key) && Sorting.StrictWeak(less)
    requires forall x, y :: !less(x, y) && !less(y, x) ==> key(x) == key(y)
    requires multiset(other) == multiset(rows) && Sorting.Ordered(other, less)
    ensures other == Sorting.Sort(rows, less)
    ensures forall d :: d in other <==> d in rows
  {
    Sorting.SortCorrect(rows, less);
    forall x, y | x in multiset(other) && y in multiset(other) && x != y ensures less(x, y) || less(y, x) {
      assert x in rows && y in rows;
      var i :| 0 <= i < |rows| && rows[i] == x;
      var j :| 0 <= j < |rows| && rows[j] == y;
      assert key(rows[i]) != key(rows[j]);
    }
    Sorting.OrderedIsUnique(other, Sorting.Sort(rows, less), less);
    forall d ensures d in other <==> d in rows {
      assert d in other <==> d in multiset(other);
      assert d in rows <==> d in multiset(rows);
    }
  }

  lemma ConsUpdate<T>(x: T, s: seq<T>, k: nat, y: T)
    requires k < |s|
    ensures [x] + s[k := y] == ([x] + s)[k+1 := y]
  {
  }

  lemma ConsAppend<T>(x: T, s: seq<T>, y: T)
    ensures [x] + (s + [y]) == [x] + s + [y]
  {
  }
}
