/** The stratified train/dev split of `split` in src/preparation/train_dev_split.py.

    The table is a sequence of rows, each with a distinct index label and a target value.
    The rows are sorted by target, the sorted labels are cut into contiguous windows of
    `bin_size`, one label is drawn from each window, the drawn rows become the dev part
    and every other row the train part. */
module TrainDevSplit {
  import opened Wrappers
  import opened PyRound

  /** A row of the data frame: its index label and its value in the target column. */
  datatype Row = Row(id: int, target: real)

  /** The outcome of `split`: the exception it raises, or the (train, dev) pair. */
  datatype SplitResult =
    | Failed(error: PyError)
    | Split(train: seq<Row>, dev: seq<Row>)

  /** `random.seed(seed); random.sample(population = bin, k = 1)` for a bin of `len`
      elements, reduced to the offset of the element it returns. */
  type Picker = (int, nat) -> nat

  /** Every draw lands inside the bin it is drawn from. */
  ghost predicate ValidPicker(pick: Picker)
  {
    forall seed: int, len: nat :: 0 < len ==> pick(seed, len) < len
  }

  function Min(a: int, b: int): int { if a <= b then a else b }

  // ---------------------------------------------------------------------------
  // Index labels and the frame's row order

  /** `list(frame.index)`: the index labels in row order. */
  function Ids(rows: seq<Row>): (ids: seq<int>)
    ensures |ids| == |rows|
    ensures forall i :: 0 <= i < |rows| ==> ids[i] == rows[i].id
  {
    if rows == [] then [] else [rows[0].id] + Ids(rows[1..])
  }

  predicate Distinct<T(==)>(s: seq<T>)
  {
    forall i, j :: 0 <= i < j < |s| ==> s[i] != s[j]
  }

  /** The index of the frame has no repeated label. */
  predicate DistinctIds(rows: seq<Row>)
  {
    Distinct(Ids(rows))
  }

  predicate SortedByTarget(s: seq<Row>)
  {
    forall i, j :: 0 <= i < j < |s| ==> s[i].target <= s[j].target
  }

  /** `order` is one possible result of `df.sort_values(target_column)`: the same rows,
      ascending by target. The default sort is not stable, so rows with equal targets
      may come out in any order. */
  predicate IsSortValues(rows: seq<Row>, order: seq<Row>)
  {
    multiset(order) == multiset(rows) && SortedByTarget(order)
  }

  /** Inserts `r` in front of the first row of the sorted `s` whose target is larger. */
  function InsertByTarget(r: Row, s: seq<Row>): (t: seq<Row>)
    requires SortedByTarget(s)
    ensures SortedByTarget(t)
    ensures multiset(t) == multiset(s) + multiset{r}
  {
    if s == [] then [r]
    else if r.target <= s[0].target then [r] + s
    else
      var rest := InsertByTarget(r, s[1..]);
      HeadBelowInsert(s, r, rest);
      ConsSorted(s[0], rest);
      assert s == [s[0]] + s[1..];
      [s[0]] + rest
  }

  /** The first row of a sorted `s` is at most every row of `s[1..]` with `r` put in. */
  lemma HeadBelowInsert(s: seq<Row>, r: Row, rest: seq<Row>)
    requires SortedByTarget(s) && |s| > 0 && s[0].target < r.target
    requires multiset(rest) == multiset(s[1..]) + multiset{r}
    ensures forall k :: 0 <= k < |rest| ==> s[0].target <= rest[k].target
  {
    forall k | 0 <= k < |rest| ensures s[0].target <= rest[k].target {
      assert rest[k] in multiset(rest);
      if rest[k] != r {
        assert rest[k] in s[1..];
      }
    }
  }

  lemma ConsSorted(h: Row, rest: seq<Row>)
    requires SortedByTarget(rest)
    requires forall k :: 0 <= k < |rest| ==> h.target <= rest[k].target
    ensures SortedByTarget([h] + rest)
  {
    var t := [h] + rest;
    forall i, j | 0 <= i < j < |t| ensures t[i].target <= t[j].target {
      if i > 0 { assert t[i] == rest[i - 1]; }
      assert t[j] == rest[j - 1];
    }
  }

  /** A reference sort: one admissible output of `sort_values`, so that every table has one. */
  function SortByTarget(rows: seq<Row>): (order: seq<Row>)
    ensures IsSortValues(rows, order)
  {
    if rows == [] then []
    else
      assert rows == [rows[0]] + rows[1..];
      InsertByTarget(rows[0], SortByTarget(rows[1..]))
  }

  // ---------------------------------------------------------------------------
  // `df.drop(labels)` and `df.loc[labels, :]`

  /** `df.drop(labels, axis = 0)`: the rows whose label is not listed, in their original order. */
  function Drop(rows: seq<Row>, labels: seq<int>): (kept: seq<Row>)
    ensures forall r :: r in kept <==> r in rows && r.id !in labels
  {
    if rows == [] then []
    else if rows[0].id in labels then Drop(rows[1..], labels)
    else [rows[0]] + Drop(rows[1..], labels)
  }

  /** `drop` keeps the original row order: the rows kept from a front part of the table come
      before those kept from the rest. */
  lemma {:induction false} DropConcat(front: seq<Row>, back: seq<Row>, labels: seq<int>)
    ensures Drop(front + back, labels) == Drop(front, labels) + Drop(back, labels)
  {
    if front == [] {
      assert front + back == back;
    } else {
      assert (front + back)[0] == front[0];
      assert (front + back)[1..] == front[1..] + back;
      DropConcat(front[1..], back, labels);
    }
  }

  /** Dropping rows from a table with distinct labels leaves distinct labels. */
  lemma {:induction false} DropKeepsDistinct(rows: seq<Row>, labels: seq<int>)
    requires DistinctIds(rows)
    ensures DistinctIds(Drop(rows, labels))
  {
    if rows != [] {
      var ids := Ids(rows);
      assert Ids(rows[1..]) == ids[1..];
      UnconsDistinct(ids);
      DropKeepsDistinct(rows[1..], labels);
      var tail := Drop(rows[1..], labels);
      if rows[0].id !in labels {
        assert rows[0].id !in Ids(tail);
        ConsDistinct(rows[0].id, Ids(tail));
        assert Ids([rows[0]] + tail) == [rows[0].id] + Ids(tail);
      }
    }
  }

  lemma UnconsDistinct<T>(s: seq<T>)
    requires Distinct(s) && |s| > 0
    ensures Distinct(s[1..]) && s[0] !in s[1..]
  {
  }

  lemma ConsDistinct<T>(x: T, s: seq<T>)
    requires Distinct(s) && x !in s
    ensures Distinct([x] + s)
  {
    var t := [x] + s;
    forall i, j | 0 <= i < j < |t| ensures t[i] != t[j] {
      assert t[j] == s[j - 1];
      if i > 0 { assert t[i] == s[i - 1]; }
    }
  }

  /** `df.loc[key]`: every row carrying `key`, in row order. Each such row is selected as
      often as it occurs in the table, and no other row is selected. */
  function Select(rows: seq<Row>, key: int): (sel: seq<Row>)
    ensures forall r :: r in sel ==> r in rows && r.id == key
    ensures forall r :: multiset(sel)[r] == if r.id == key then multiset(rows)[r] else 0
  {
    if rows == [] then []
    else
      assert rows == [rows[0]] + rows[1..];
      (if rows[0].id == key then [rows[0]] else []) + Select(rows[1..], key)
  }

  /** `df.loc[labels, :]`: for each listed key in turn, the rows carrying it. A key that
      is not in the index raises KeyError in pandas; `split` never passes one. */
  function Loc(rows: seq<Row>, labels: seq<int>): (sel: seq<Row>)
    requires forall l :: l in labels ==> l in Ids(rows)
    ensures forall r :: r in sel <==> r in rows && r.id in labels
  {
    if labels == [] then []
    else Select(rows, labels[0]) + Loc(rows, labels[1..])
  }

  lemma {:induction false} SelectAbsent(rows: seq<Row>, key: int)
    requires key !in Ids(rows)
    ensures Select(rows, key) == []
  {
    if rows != [] {
      assert Ids(rows)[0] == rows[0].id;
      assert Ids(rows[1..]) == Ids(rows)[1..];
      SelectAbsent(rows[1..], key);
    }
  }

  /** With distinct labels, `df.loc[key]` is a single row. */
  lemma {:induction false} SelectUnique(rows: seq<Row>, key: int)
    requires DistinctIds(rows) && key in Ids(rows)
    ensures |Select(rows, key)| == 1
  {
    assert Ids(rows[1..]) == Ids(rows)[1..];
    assert DistinctIds(rows[1..]);
    if rows[0].id == key {
      assert key !in Ids(rows)[1..];
      SelectAbsent(rows[1..], key);
    } else {
      SelectUnique(rows[1..], key);
    }
  }

  /** `sel` holds, for each listed label in turn, one row of the table carrying it. */
  ghost predicate OneRowPerLabel(rows: seq<Row>, labels: seq<int>, sel: seq<Row>) {
    |sel| == |labels| && forall k :: 0 <= k < |labels| ==> sel[k] in rows && sel[k].id == labels[k]
  }

  /** With distinct labels, `df.loc[labels, :]` has one row per listed label, in list order. */
  lemma {:induction false} LocUnique(rows: seq<Row>, labels: seq<int>)
    requires DistinctIds(rows)
    requires forall l :: l in labels ==> l in Ids(rows)
    ensures OneRowPerLabel(rows, labels, Loc(rows, labels))
  {
    if labels != [] {
      SelectUnique(rows, labels[0]);
      LocUnique(rows, labels[1..]);
      var head := Select(rows, labels[0]);
      assert head[0] in head;
      OneRowPerLabelCons(rows, labels, head, Loc(rows, labels[1..]));
    }
  }

  lemma OneRowPerLabelCons(rows: seq<Row>, labels: seq<int>, head: seq<Row>, tail: seq<Row>)
    requires |labels| > 0 && |head| == 1 && head[0] in rows && head[0].id == labels[0]
    requires OneRowPerLabel(rows, labels[1..], tail)
    ensures OneRowPerLabel(rows, labels, head + tail)
  {
    var sel := head + tail;
    forall k | 0 <= k < |labels| ensures sel[k] in rows && sel[k].id == labels[k] {
      if k > 0 { assert sel[k] == tail[k - 1] && labels[k] == labels[1..][k - 1]; }
    }
  }

  // ---------------------------------------------------------------------------
  // Windows of the sorted labels and the draws from them

  /** `[s[i:i+b] for i in range(0, len(s), b)]`: the windows the loop walks, contiguous,
      non-overlapping and non-empty; only the last one may be shorter than `b`. */
  function Windows(s: seq<int>, b: nat): (ws: seq<seq<int>>)
    requires b > 0
    ensures NonEmptyWindows(ws)
    decreases |s|
  {
    if |s| == 0 then []
    else if |s| <= b then [s]
    else [s[..b]] + Windows(s[b..], b)
  }

  /** No window is empty, so each one has something to draw from. */
  predicate NonEmptyWindows(ws: seq<seq<int>>)
  {
    ws == [] || (|ws[0]| > 0 && NonEmptyWindows(ws[1..]))
  }

  /** The windows are non-empty and at most `b` long, and all but the last are exactly `b` long. */
  lemma {:induction false} WindowSizes(s: seq<int>, b: nat)
    requires b > 0
    ensures forall k :: 0 <= k < |Windows(s, b)| ==> 0 < |Windows(s, b)[k]| <= b
    ensures forall k :: 0 <= k < |Windows(s, b)| - 1 ==> |Windows(s, b)[k]| == b
  {
    if |s| > 0 {
      var m := Min(b, |s|);
      var rest := Windows(s[m..], b);
      WindowSizes(s[m..], b);
      WindowsUnfold(s, b);
      var ws := Windows(s, b);
      forall k | 0 <= k < |ws| ensures 0 < |ws[k]| <= b && (k < |ws| - 1 ==> |ws[k]| == b) {
        if k > 0 {
          assert ws[k] == rest[k - 1];
        } else if |ws| > 1 {
          assert |rest| > 0;
          assert s[m..] != [];
        }
      }
    }
  }

  /** One draw per window, each at the offset the re-seeded generator gives for that window's length. */
  function Draws(ws: seq<seq<int>>, seed: int, pick: Picker): (ds: seq<int>)
    requires ValidPicker(pick)
    requires NonEmptyWindows(ws)
    ensures |ds| == |ws|
  {
    if ws == [] then [] else [ws[0][pick(seed, |ws[0]|)]] + Draws(ws[1..], seed, pick)
  }

  /** `round(num_samples * test_size)`: an integer within one half of `N * test_size`. */
  function DesiredDevCount(n: nat, testSize: real): (d: int)
    ensures n as real * testSize - 0.5 <= d as real <= n as real * testSize + 0.5
  {
    RoundHalfEven(n as real * testSize)
  }

  /** `round(num_samples / desired_num_dev_samples)`, defined only for a non-zero divisor: an
      integer within one half of the quotient. */
  function BinSize(n: nat, desired: int): (b: int)
    requires desired != 0
    ensures n as real / desired as real - 0.5 <= b as real <= n as real / desired as real + 0.5
  {
    RoundHalfEven(n as real / desired as real)
  }

  /** The labels the loop collects in `dev_indexes` for a positive bin size: one per window,
      so `ceil(N / bin_size)` of them. */
  function DevLabels(order: seq<Row>, b: nat, seed: int, pick: Picker): (labels: seq<int>)
    requires b > 0 && ValidPicker(pick)
    ensures |labels| == (|order| + b - 1) / b
  {
    DrawCount(Ids(order), b, seed, pick);
    Draws(Windows(Ids(order), b), seed, pick)
  }

  /** What the stratified branch of `split` returns, stated without its loop. It raises
      ZeroDivisionError exactly when `desired` rounds to 0; otherwise, when it returns, every row
      lands in exactly one of the two parts. */
  function StratifiedSplit(rows: seq<Row>, testSize: real, seed: int, order: seq<Row>, pick: Picker): (result: SplitResult)
    requires IsSortValues(rows, order) && ValidPicker(pick)
    ensures result == Failed(ZeroDivisionError) <==> DesiredDevCount(|rows|, testSize) == 0
    ensures result.Split? ==>
              (forall x :: x in result.train ==> x in rows && x !in result.dev) &&
              (forall x :: x in result.dev ==> x in rows) &&
              (forall x :: x in rows ==> x in result.train || x in result.dev)
  {
    var desired := DesiredDevCount(|rows|, testSize);
    if desired == 0 then Failed(ZeroDivisionError)
    else
      var b := BinSize(|rows|, desired);
      if b == 0 then Failed(ValueError)
      else
        var labels := if b > 0 then DevLabels(order, b, seed, pick) else [];
        assert forall l :: l in labels ==> l in Ids(rows) by {
          SortedLabelsPresent(rows, order);
          if b > 0 { DevLabelsPresent(order, b, seed, pick); }
        }
        Split(Drop(rows, labels), Loc(rows, labels))
  }

  // ---------------------------------------------------------------------------
  // The operation itself

  /** The stratified branch of `split`. `order` is the frame `sort_values` returned and
      `pick` the seeded draw. */
  method SplitStratified(rows: seq<Row>, testSize: real, seed: int, order: seq<Row>, pick: Picker)
    returns (result: SplitResult)
    requires IsSortValues(rows, order)
    requires ValidPicker(pick)
    ensures result == StratifiedSplit(rows, testSize, seed, order, pick)
  {
    var dfIndexes := Ids(order);
    var n := |order|;
    assert |rows| == n by { assert |multiset(rows)| == |multiset(order)|; }
    var desired := DesiredDevCount(n, testSize);
    if desired == 0 {
      return Failed(ZeroDivisionError);
    }
    var binSize := BinSize(n, desired);
    if binSize == 0 {
      return Failed(ValueError);
    }
    var devIndexes: seq<int> := [];
    if binSize > 0 {
      devIndexes := SampleBins(dfIndexes, binSize, seed, pick);
    }
    assert forall l :: l in devIndexes ==> l in Ids(rows) by {
      SortedLabelsPresent(rows, order);
      if binSize > 0 { DevLabelsPresent(order, binSize, seed, pick); }
    }
    result := Split(Drop(rows, devIndexes), Loc(rows, devIndexes));
  }

  /** The loop over `range(0, len(df_indexes), bin_size)`: take the bin `df_indexes[i:i+bin_size]`,
      re-seed, draw one label from it and append it to `dev_indexes`. */
  method SampleBins(dfIndexes: seq<int>, binSize: nat, seed: int, pick: Picker)
    returns (devIndexes: seq<int>)
    requires binSize > 0 && ValidPicker(pick)
    ensures devIndexes == Draws(Windows(dfIndexes, binSize), seed, pick)
  {
    devIndexes := [];
    var i := 0;
    while i < |dfIndexes|
      invariant 0 <= i
      invariant devIndexes + DrawsFrom(dfIndexes, i, binSize, seed, pick) == DrawsFrom(dfIndexes, 0, binSize, seed, pick)
    {
      var end := Min(i + binSize, |dfIndexes|);
      var bin := dfIndexes[i..end];
      var offset := pick(seed, |bin|);
      var drawn := bin[offset];
      ghost var later := DrawsFrom(dfIndexes, i + binSize, binSize, seed, pick);
      assert (devIndexes + [drawn]) + later == devIndexes + ([drawn] + later);
      devIndexes := devIndexes + [drawn];
      i := i + binSize;
    }
    DrawsFromWindows(dfIndexes, 0, binSize, seed, pick);
    assert dfIndexes[Min(0, |dfIndexes|)..] == dfIndexes;
  }

  /** The draws the loop makes from position `i` on: one from the bin starting at `i`, then the
      draws from `i + b` on. Every draw is one of the sorted labels. */
  function DrawsFrom(s: seq<int>, i: nat, b: nat, seed: int, pick: Picker): (ds: seq<int>)
    requires b > 0 && ValidPicker(pick)
    ensures forall x :: x in ds ==> x in s
    decreases |s| - i
  {
    if i >= |s| then []
    else
      var bin := s[i..Min(i + b, |s|)];
      [bin[pick(seed, |bin|)]] + DrawsFrom(s, i + b, b, seed, pick)
  }

  /** The loop's draws from position `i` on are the draws from the windows of `s[i..]`. */
  lemma {:induction false} DrawsFromWindows(s: seq<int>, i: nat, b: nat, seed: int, pick: Picker)
    requires b > 0 && ValidPicker(pick)
    ensures DrawsFrom(s, i, b, seed, pick) == Draws(Windows(s[Min(i, |s|)..], b), seed, pick)
    decreases |s| - i
  {
    if i >= |s| {
      assert s[Min(i, |s|)..] == [];
    } else {
      var bin := s[i..Min(i + b, |s|)];
      var rest := Windows(s[Min(i + b, |s|)..], b);
      calc {
        DrawsFrom(s, i, b, seed, pick);
        [bin[pick(seed, |bin|)]] + DrawsFrom(s, i + b, b, seed, pick);
        { DrawsFromWindows(s, i + b, b, seed, pick); }
        [bin[pick(seed, |bin|)]] + Draws(rest, seed, pick);
        { DrawsCons(bin, rest, seed, pick); }
        Draws([bin] + rest, seed, pick);
        { WindowsStep(s, i, b); }
        Draws(Windows(s[i..], b), seed, pick);
        { assert s[Min(i, |s|)..] == s[i..]; }
        Draws(Windows(s[Min(i, |s|)..], b), seed, pick);
      }
    }
  }

  lemma DrawsCons(w: seq<int>, rest: seq<seq<int>>, seed: int, pick: Picker)
    requires ValidPicker(pick) && |w| > 0
    requires NonEmptyWindows(rest)
    ensures Draws([w] + rest, seed, pick) == [w[pick(seed, |w|)]] + Draws(rest, seed, pick)
  {
    assert ([w] + rest)[1..] == rest;
  }

  /** One loop iteration peels the window starting at `i` off the windows of the remaining labels. */
  lemma WindowsStep(s: seq<int>, i: nat, b: nat)
    requires b > 0 && i < |s|
    ensures Windows(s[i..], b) == [s[i..Min(i + b, |s|)]] + Windows(s[Min(i + b, |s|)..], b)
  {
    var m := Min(b, |s| - i);
    WindowsUnfold(s[i..], b);
    assert s[i..][..m] == s[i..Min(i + b, |s|)];
    assert s[i..][m..] == s[Min(i + b, |s|)..];
  }

  /** Every label of the sorted frame is a label of the table. */
  lemma SortedLabelsPresent(rows: seq<Row>, order: seq<Row>)
    requires IsSortValues(rows, order)
    ensures forall l :: l in Ids(order) ==> l in Ids(rows)
  {
    forall l | l in Ids(order) ensures l in Ids(rows) {
      var i :| 0 <= i < |order| && Ids(order)[i] == l;
      assert order[i] in multiset(rows);
      var j :| 0 <= j < |rows| && rows[j] == order[i];
      assert Ids(rows)[j] == l;
    }
  }

  /** Every drawn label is a label of the sorted frame. */
  lemma DevLabelsPresent(order: seq<Row>, b: nat, seed: int, pick: Picker)
    requires b > 0 && ValidPicker(pick)
    ensures forall l :: l in DevLabels(order, b, seed, pick) ==> l in Ids(order)
  {
    var s := Ids(order);
    var d := DevLabels(order, b, seed, pick);
    DrawPositions(s, b, seed, pick);
    forall l | l in d ensures l in s {
      var k :| 0 <= k < |d| && d[k] == l;
    }
  }

  // ---------------------------------------------------------------------------
  // Properties of the windows and draws

  /** Start of window `k`: the `k`-th value of `range(0, n, b)`, that is 0, b, 2b, ... */
  function Start(k: nat, b: nat): nat
  {
    if k == 0 then 0 else Start(k - 1, b) + b
  }

  /** Window starts are the multiples of the bin size. */
  lemma {:induction false} StartIsMultiple(k: nat, b: nat)
    ensures Start(k, b) == k * b
  {
    if k > 0 {
      StartIsMultiple(k - 1, b);
      assert (k - 1) * b + b == k * b;
    }
  }

  /** A later window starts at or after the end of an earlier full one. */
  lemma {:induction false} StartAfter(k1: nat, k2: nat, b: nat)
    requires k1 < k2
    ensures Start(k1, b) + b <= Start(k2, b)
  {
    if k1 + 1 < k2 {
      StartAfter(k1, k2 - 1, b);
    }
  }

  /** The length of window `k` of a sequence of `n` elements: `b`, or what is left for the last one. */
  function WindowLength(n: nat, b: nat, k: nat): nat
    requires Start(k, b) < n
  {
    Min(b, n - Start(k, b))
  }

  /** Window `k` is the slice `s[i:i+b]` that the loop takes at `i = Start(k, b)`. */
  lemma {:induction false} WindowAt(s: seq<int>, b: nat, k: nat)
    requires b > 0
    requires k < |Windows(s, b)|
    ensures Start(k, b) < |s|
    ensures Windows(s, b)[k] == s[Start(k, b) .. Start(k, b) + WindowLength(|s|, b, k)]
  {
    assert |s| > 0;
    WindowsUnfold(s, b);
    if k == 0 {
      assert Windows(s, b)[0] == s[..Min(b, |s|)];
    } else {
      assert Min(b, |s|) == b;
      WindowAt(s[b..], b, k - 1);
      WindowAfterFirst(s, b, k);
    }
  }

  /** The step of WindowAt: window `k > 0` of `s` is window `k - 1` of `s[b..]`, shifted by `b`. */
  lemma WindowAfterFirst(s: seq<int>, b: nat, k: nat)
    requires 0 < b < |s| && 0 < k
    requires Windows(s, b) == [s[..b]] + Windows(s[b..], b)
    requires k - 1 < |Windows(s[b..], b)| && Start(k - 1, b) < |s| - b
    requires Windows(s[b..], b)[k - 1]
          == s[b..][Start(k - 1, b) .. Start(k - 1, b) + WindowLength(|s| - b, b, k - 1)]
    ensures Start(k, b) < |s|
    ensures Windows(s, b)[k] == s[Start(k, b) .. Start(k, b) + WindowLength(|s|, b, k)]
  {
    var i := Start(k - 1, b);
    var len := WindowLength(|s| - b, b, k - 1);
    assert len == WindowLength(|s|, b, k) && b + i + len <= |s|;
    calc {
      Windows(s, b)[k];
      Windows(s[b..], b)[k - 1];
      s[b..][i .. i + len];
      { SliceOfSuffix(s, b, i, len); }
      s[b + i .. b + i + len];
    }
  }

  lemma WindowsUnfold(s: seq<int>, b: nat)
    requires b > 0 && |s| > 0
    ensures Windows(s, b) == [s[..Min(b, |s|)]] + Windows(s[Min(b, |s|)..], b)
  {
    if |s| <= b {
      assert s[..|s|] == s && s[|s|..] == [];
    }
  }

  lemma SliceOfSuffix(s: seq<int>, b: nat, i: nat, len: nat)
    requires b + i + len <= |s|
    ensures s[b..][i .. i + len] == s[b + i .. b + i + len]
  {
  }

  /** The windows cover `s` exactly: the last one starts before `|s|` and ends at or past it,
      so there are ceil(|s| / b) of them. */
  lemma {:induction false} WindowCount(s: seq<int>, b: nat)
    requires b > 0
    ensures |s| <= Start(|Windows(s, b)|, b)
    ensures |Windows(s, b)| > 0 ==> Start(|Windows(s, b)| - 1, b) < |s|
  {
    if |s| > 0 {
      var m := Min(b, |s|);
      WindowCount(s[m..], b);
      if |s| <= b {
        assert |s[m..]| == 0;
      }
    }
  }

  /** The count of windows, as the division `math.ceil(n / b)`. */
  lemma CeilingCount(n: nat, b: nat, c: nat)
    requires b > 0
    requires n <= Start(c, b) && (c > 0 ==> Start(c - 1, b) < n)
    ensures c == (n + b - 1) / b
  {
    StartIsMultiple(c, b);
    assert Start(c, b) <= n + b - 1 by {
      if c > 0 {
        assert Start(c, b) == Start(c - 1, b) + b;
      }
    }
    DivUnique(n + b - 1, b, c);
  }

  /** `q` is the quotient of `x` by `b` when `q * b <= x < q * b + b`. */
  lemma DivUnique(x: nat, b: nat, q: nat)
    requires b > 0 && q * b <= x < q * b + b
    ensures q == x / b
  {
    var r := x / b;
    assert r * b <= x < r * b + b;
    assert (q + 1) * b == q * b + b && (r + 1) * b == r * b + b;
    if q < r {
      MulMono(q + 1, r, b);
    } else if q > r {
      MulMono(r + 1, q, b);
    }
  }

  lemma MulMono(a: nat, c: nat, b: nat)
    requires a <= c
    ensures a * b <= c * b
  {
  }

  /** Concatenating the windows gives back `s`: together they cover every label once. */
  function Flatten(ws: seq<seq<int>>): seq<int>
  {
    if ws == [] then [] else ws[0] + Flatten(ws[1..])
  }

  lemma {:induction false} WindowsCover(s: seq<int>, b: nat)
    requires b > 0
    ensures Flatten(Windows(s, b)) == s
  {
    if |s| > 0 {
      var m := Min(b, |s|);
      WindowsUnfold(s, b);
      WindowsCover(s[m..], b);
      var ws := Windows(s, b);
      assert ws[0] == s[..m] && ws[1..] == Windows(s[m..], b);
      assert Flatten(ws) == s[..m] + Flatten(Windows(s[m..], b));
      assert s[..m] + s[m..] == s;
    }
  }

  /** Draw `k` is the element of window `k` at offset `pick(seed, |window|)`. */
  lemma {:induction false} DrawsAt(ws: seq<seq<int>>, seed: int, pick: Picker)
    requires ValidPicker(pick) && NonEmptyWindows(ws)
    ensures |Draws(ws, seed, pick)| == |ws|
    ensures forall k :: 0 <= k < |ws| ==> 0 < |ws[k]|
    ensures forall k :: 0 <= k < |ws| ==> Draws(ws, seed, pick)[k] == ws[k][pick(seed, |ws[k]|)]
  {
    if ws != [] {
      DrawsAt(ws[1..], seed, pick);
      forall k | 0 < k < |ws| ensures ws[k] == ws[1..][k - 1] { }
    }
  }

  /** Position in `s` of the draw from window `k`. */
  function DrawPosition(n: nat, b: nat, seed: int, pick: Picker, k: nat): nat
    requires Start(k, b) < n
  {
    Start(k, b) + pick(seed, WindowLength(n, b, k))
  }

  /** Draw `k` comes from window `k`, at the offset `pick(seed, length of window k)`. */
  lemma DrawPositions(s: seq<int>, b: nat, seed: int, pick: Picker)
    requires b > 0 && ValidPicker(pick)
    ensures |Draws(Windows(s, b), seed, pick)| == |Windows(s, b)|
    ensures forall k :: 0 <= k < |Windows(s, b)| ==>
              Start(k, b) < |s| &&
              DrawPosition(|s|, b, seed, pick, k) < Start(k, b) + WindowLength(|s|, b, k) &&
              Draws(Windows(s, b), seed, pick)[k] == s[DrawPosition(|s|, b, seed, pick, k)]
  {
    var ws := Windows(s, b);
    DrawsAt(ws, seed, pick);
    forall k | 0 <= k < |ws|
      ensures Start(k, b) < |s|
      ensures DrawPosition(|s|, b, seed, pick, k) < Start(k, b) + WindowLength(|s|, b, k)
      ensures Draws(ws, seed, pick)[k] == s[DrawPosition(|s|, b, seed, pick, k)]
    {
      DrawPositionAt(s, b, seed, pick, k);
    }
  }

  lemma DrawPositionAt(s: seq<int>, b: nat, seed: int, pick: Picker, k: nat)
    requires b > 0 && ValidPicker(pick) && k < |Windows(s, b)|
    ensures Start(k, b) < |s|
    ensures DrawPosition(|s|, b, seed, pick, k) < Start(k, b) + WindowLength(|s|, b, k)
    ensures |Draws(Windows(s, b), seed, pick)| == |Windows(s, b)|
    ensures Draws(Windows(s, b), seed, pick)[k] == s[DrawPosition(|s|, b, seed, pick, k)]
  {
    var ws := Windows(s, b);
    DrawsAt(ws, seed, pick);
    WindowAt(s, b, k);
    var w := ws[k];
    var off := pick(seed, |w|);
    assert |w| == WindowLength(|s|, b, k);
    assert off < |w|;
    assert w[off] == s[Start(k, b) + off];
  }

  /** Draws from later windows come from later positions. */
  lemma DrawsIncreasing(n: nat, b: nat, seed: int, pick: Picker, k1: nat, k2: nat)
    requires b > 0 && ValidPicker(pick)
    requires k1 < k2 && Start(k2, b) < n
    ensures Start(k1, b) < n
    ensures DrawPosition(n, b, seed, pick, k1) < DrawPosition(n, b, seed, pick, k2)
  {
    StartAfter(k1, k2, b);
  }

  // ---------------------------------------------------------------------------
  // Rows, labels and multisets

  /** A sequence without repeats holds each of its elements exactly once. */
  lemma {:induction false} DistinctMultiplicity<T>(s: seq<T>, x: T)
    requires Distinct(s)
    ensures multiset(s)[x] == if x in s then 1 else 0
  {
    if s != [] {
      assert s == [s[0]] + s[1..];
      assert Distinct(s[1..]);
      DistinctMultiplicity(s[1..], x);
    }
  }

  /** An element at two positions occurs at least twice. */
  lemma TwiceMultiplicity<T>(s: seq<T>, i: nat, j: nat)
    requires i < j < |s| && s[i] == s[j]
    ensures multiset(s)[s[i]] >= 2
  {
    assert s == s[..j] + s[j..];
    assert s[i] in s[..j];
    assert s[j] in s[j..];
  }

  /** In a table with distinct labels, a label picks out one row. */
  lemma SameIdSameRow(rows: seq<Row>, x: Row, y: Row)
    requires DistinctIds(rows)
    requires x in rows && y in rows && x.id == y.id
    ensures x == y
  {
    var i :| 0 <= i < |rows| && rows[i] == x;
    var j :| 0 <= j < |rows| && rows[j] == y;
    assert Ids(rows)[i] == Ids(rows)[j];
  }

  /** Sorting keeps the labels distinct. */
  lemma SortKeepsDistinctIds(rows: seq<Row>, order: seq<Row>)
    requires DistinctIds(rows) && IsSortValues(rows, order)
    ensures DistinctIds(order)
  {
    forall i, j | 0 <= i < j < |order| ensures Ids(order)[i] != Ids(order)[j] {
      assert order[i] in multiset(rows) && order[j] in multiset(rows);
      if order[i].id == order[j].id {
        SameIdSameRow(rows, order[i], order[j]);
        TwiceMultiplicity(order, i, j);
        DistinctRows(rows);
        DistinctMultiplicity(rows, order[i]);
        assert false;
      }
    }
  }

  /** Distinct labels make distinct rows. */
  lemma DistinctRows(rows: seq<Row>)
    requires DistinctIds(rows)
    ensures Distinct(rows)
  {
    forall i, j | 0 <= i < j < |rows| ensures rows[i] != rows[j] {
      assert Ids(rows)[i] != Ids(rows)[j];
    }
  }

  /** Dropping the listed labels and selecting them splits the table: together the two parts
      hold every row exactly once. */
  lemma DropLocPartition(rows: seq<Row>, labels: seq<int>)
    requires DistinctIds(rows) && Distinct(labels)
    requires forall l :: l in labels ==> l in Ids(rows)
    ensures forall x :: x in Drop(rows, labels) ==> x !in Loc(rows, labels)
    ensures multiset(Drop(rows, labels)) + multiset(Loc(rows, labels)) == multiset(rows)
  {
    LocUnique(rows, labels);
    DropKeepsDistinct(rows, labels);
    Partition(rows, labels, Drop(rows, labels), Loc(rows, labels));
  }

  /** The partition argument for any `train` that keeps exactly the unlisted rows and any
      `dev` with one row per (distinct) listed label. */
  lemma Partition(rows: seq<Row>, labels: seq<int>, train: seq<Row>, dev: seq<Row>)
    requires DistinctIds(rows) && Distinct(labels) && DistinctIds(train)
    requires forall r :: r in train <==> r in rows && r.id !in labels
    requires OneRowPerLabel(rows, labels, dev)
    ensures forall x :: x in train ==> x !in dev
    ensures multiset(train) + multiset(dev) == multiset(rows)
  {
    DistinctRows(rows);
    DistinctRows(train);
    forall i, j | 0 <= i < j < |dev| ensures dev[i] != dev[j] {
      assert dev[i].id == labels[i] && dev[j].id == labels[j];
    }
    forall x ensures (multiset(train) + multiset(dev))[x] == multiset(rows)[x] {
      DistinctMultiplicity(train, x);
      DistinctMultiplicity(dev, x);
      DistinctMultiplicity(rows, x);
      if x in rows && x.id in labels {
        var k :| 0 <= k < |labels| && labels[k] == x.id;
        SameIdSameRow(rows, x, dev[k]);
      }
    }
    assert multiset(train) + multiset(dev) == multiset(rows);
  }

  /** The dev row for a drawn label is the row of the sorted frame that carries it. */
  lemma LocAt(rows: seq<Row>, order: seq<Row>, labels: seq<int>, sel: seq<Row>, k: nat, p: nat)
    requires DistinctIds(rows) && IsSortValues(rows, order) && OneRowPerLabel(rows, labels, sel)
    requires k < |labels| && p < |order| && labels[k] == order[p].id
    ensures sel[k] == order[p]
  {
    assert order[p] in multiset(rows);
    SameIdSameRow(rows, sel[k], order[p]);
  }

  // ---------------------------------------------------------------------------
  // What `split` promises

  /** It raises ZeroDivisionError exactly when `round(N * test_size)` is 0, ValueError exactly
      when the bin size rounds to 0, and otherwise returns a train and a dev part. */
  lemma SplitFailures(rows: seq<Row>, testSize: real, seed: int, order: seq<Row>, pick: Picker)
    requires IsSortValues(rows, order) && ValidPicker(pick)
    ensures var r := StratifiedSplit(rows, testSize, seed, order, pick);
            var desired := DesiredDevCount(|rows|, testSize);
            (r == Failed(ZeroDivisionError) <==> desired == 0) &&
            (r == Failed(ValueError) <==> desired != 0 && BinSize(|rows|, desired) == 0) &&
            (r.Split? <==> desired != 0 && BinSize(|rows|, desired) != 0)
  {
  }

  /** An empty table always raises ZeroDivisionError. */
  lemma EmptyTableFails(testSize: real, seed: int, pick: Picker)
    requires ValidPicker(pick)
    ensures StratifiedSplit([], testSize, seed, [], pick) == Failed(ZeroDivisionError)
  {
    RoundOfInteger(0);
  }

  /** Train and dev are disjoint, every row lands in exactly one of them, so
      |train| + |dev| = N; train keeps the rows of the input in their original order. */
  lemma SplitPartitions(rows: seq<Row>, testSize: real, seed: int, order: seq<Row>, pick: Picker)
    requires DistinctIds(rows) && IsSortValues(rows, order) && ValidPicker(pick)
    ensures var r := StratifiedSplit(rows, testSize, seed, order, pick);
            r.Split? ==>
              (forall x :: x in r.train ==> x !in r.dev) &&
              multiset(r.train) + multiset(r.dev) == multiset(rows) &&
              |r.train| + |r.dev| == |rows| &&
              r.train == Drop(rows, Ids(r.dev))
  {
    var r := StratifiedSplit(rows, testSize, seed, order, pick);
    if r.Split? {
      var desired := DesiredDevCount(|rows|, testSize);
      var b := BinSize(|rows|, desired);
      var labels := if b > 0 then DevLabels(order, b, seed, pick) else [];
      SortedLabelsPresent(rows, order);
      if b > 0 {
        DevLabelsPresent(order, b, seed, pick);
        SortKeepsDistinctIds(rows, order);
        DevLabelsDistinct(order, b, seed, pick);
      }
      DropLocPartition(rows, labels);
      LocUnique(rows, labels);
      assert Ids(r.dev) == labels;
      assert |multiset(r.train) + multiset(r.dev)| == |multiset(rows)|;
    }
  }

  /** `dev` holds one row per window of `order`: row `k` is the row at the drawn position in
      window `k`, which for a full window is the offset `pick(seed, b)`. */
  ghost predicate OneDrawPerWindow(order: seq<Row>, dev: seq<Row>, b: nat, seed: int, pick: Picker)
    requires b > 0
  {
    |dev| == (|order| + b - 1) / b &&
    forall k :: 0 <= k < |dev| ==>
      Start(k, b) < |order| &&
      DrawPosition(|order|, b, seed, pick, k) < Start(k, b) + WindowLength(|order|, b, k) &&
      dev[k] == order[DrawPosition(|order|, b, seed, pick, k)] &&
      (Start(k, b) + b <= |order| ==> dev[k] == order[Start(k, b) + pick(seed, b)])
  }

  /** For a positive bin size, the rows `df.loc` selects for the drawn labels: one per window. */
  lemma DevRows(rows: seq<Row>, order: seq<Row>, b: nat, seed: int, pick: Picker)
    requires DistinctIds(rows) && IsSortValues(rows, order) && ValidPicker(pick) && b > 0
    ensures forall l :: l in DevLabels(order, b, seed, pick) ==> l in Ids(rows)
    ensures OneDrawPerWindow(order, Loc(rows, DevLabels(order, b, seed, pick)), b, seed, pick)
  {
    var labels := DevLabels(order, b, seed, pick);
    SortedLabelsPresent(rows, order);
    DevLabelsPresent(order, b, seed, pick);
    LocUnique(rows, labels);
    DrawnRows(rows, order, b, seed, pick, Loc(rows, labels));
  }

  /** The window argument for any `dev` with one row per drawn label. */
  lemma DrawnRows(rows: seq<Row>, order: seq<Row>, b: nat, seed: int, pick: Picker, dev: seq<Row>)
    requires DistinctIds(rows) && IsSortValues(rows, order) && ValidPicker(pick) && b > 0
    requires OneRowPerLabel(rows, DevLabels(order, b, seed, pick), dev)
    ensures OneDrawPerWindow(order, dev, b, seed, pick)
  {
    DrawCount(Ids(order), b, seed, pick);
    assert |dev| == (|order| + b - 1) / b;
    forall k | 0 <= k < |dev|
      ensures Start(k, b) < |order|
      ensures DrawPosition(|order|, b, seed, pick, k) < Start(k, b) + WindowLength(|order|, b, k)
      ensures dev[k] == order[DrawPosition(|order|, b, seed, pick, k)]
      ensures Start(k, b) + b <= |order| ==> dev[k] == order[Start(k, b) + pick(seed, b)]
    {
      DrawnRowAt(rows, order, b, seed, pick, dev, k);
    }
  }

  /** There is one draw per window: ceil(|s| / b) of them. */
  lemma DrawCount(s: seq<int>, b: nat, seed: int, pick: Picker)
    requires b > 0 && ValidPicker(pick)
    ensures |Draws(Windows(s, b), seed, pick)| == (|s| + b - 1) / b
  {
    DrawsAt(Windows(s, b), seed, pick);
    WindowCount(s, b);
    CeilingCount(|s|, b, |Windows(s, b)|);
  }

  /** Row `k` of `dev` is the row of `order` at the position drawn in window `k`. */
  lemma DrawnRowAt(rows: seq<Row>, order: seq<Row>, b: nat, seed: int, pick: Picker, dev: seq<Row>, k: nat)
    requires DistinctIds(rows) && IsSortValues(rows, order) && ValidPicker(pick) && b > 0
    requires OneRowPerLabel(rows, DevLabels(order, b, seed, pick), dev)
    requires k < |dev|
    ensures Start(k, b) < |order|
    ensures DrawPosition(|order|, b, seed, pick, k) < Start(k, b) + WindowLength(|order|, b, k)
    ensures dev[k] == order[DrawPosition(|order|, b, seed, pick, k)]
    ensures Start(k, b) + b <= |order| ==> dev[k] == order[Start(k, b) + pick(seed, b)]
  {
    var s := Ids(order);
    var labels := DevLabels(order, b, seed, pick);
    DrawPositions(s, b, seed, pick);
    assert |s| == |order|;
    var p := DrawPosition(|order|, b, seed, pick, k);
    assert labels[k] == s[p] == order[p].id;
    LocAt(rows, order, labels, dev, k, p);
    if Start(k, b) + b <= |order| {
      assert WindowLength(|order|, b, k) == b;
    }
  }

  /** Exactly one row is drawn from each window of the sorted frame, so there are
      ceil(N / bin_size) dev rows; row `k` of dev is the row of the sorted frame at offset
      `pick(seed, length of window k)` inside window `k`, the same offset `pick(seed, bin_size)`
      for every full window. */
  lemma SplitDraws(rows: seq<Row>, testSize: real, seed: int, order: seq<Row>, pick: Picker)
    requires DistinctIds(rows) && IsSortValues(rows, order) && ValidPicker(pick)
    ensures var r := StratifiedSplit(rows, testSize, seed, order, pick);
            r.Split? && BinSize(|rows|, DesiredDevCount(|rows|, testSize)) > 0 ==>
              OneDrawPerWindow(order, r.dev, BinSize(|rows|, DesiredDevCount(|rows|, testSize)), seed, pick)
  {
    var r := StratifiedSplit(rows, testSize, seed, order, pick);
    if r.Split? && BinSize(|rows|, DesiredDevCount(|rows|, testSize)) > 0 {
      var b := BinSize(|rows|, DesiredDevCount(|rows|, testSize));
      DevRows(rows, order, b, seed, pick);
      assert r.dev == Loc(rows, DevLabels(order, b, seed, pick));
    }
  }

  /** A negative bin size makes `range(0, N, bin_size)` empty: nothing is drawn and train is
      the whole table. */
  lemma SplitNegativeBin(rows: seq<Row>, testSize: real, seed: int, order: seq<Row>, pick: Picker)
    requires IsSortValues(rows, order) && ValidPicker(pick)
    ensures var r := StratifiedSplit(rows, testSize, seed, order, pick);
            r.Split? && BinSize(|rows|, DesiredDevCount(|rows|, testSize)) < 0 ==>
              r.dev == [] && r.train == rows
  {
    DropNothing(rows);
  }

  /** Rows drawn one per window keep the order of the frame they are drawn from. */
  lemma DrawsKeepOrder(order: seq<Row>, dev: seq<Row>, b: nat, seed: int, pick: Picker)
    requires b > 0 && ValidPicker(pick)
    requires OneDrawPerWindow(order, dev, b, seed, pick)
    requires DistinctIds(order) && SortedByTarget(order)
    ensures DistinctIds(dev) && SortedByTarget(dev)
  {
    var n := |order|;
    forall i, j | 0 <= i < j < |dev|
      ensures Ids(dev)[i] != Ids(dev)[j] && dev[i].target <= dev[j].target
    {
      DrawsIncreasing(n, b, seed, pick, i, j);
      assert Ids(order)[DrawPosition(n, b, seed, pick, i)] != Ids(order)[DrawPosition(n, b, seed, pick, j)];
    }
  }

  /** The dev rows have distinct labels and come in non-decreasing target order. */
  lemma SplitDevSorted(rows: seq<Row>, testSize: real, seed: int, order: seq<Row>, pick: Picker)
    requires DistinctIds(rows) && IsSortValues(rows, order) && ValidPicker(pick)
    ensures var r := StratifiedSplit(rows, testSize, seed, order, pick);
            r.Split? ==> DistinctIds(r.dev) && SortedByTarget(r.dev)
  {
    var r := StratifiedSplit(rows, testSize, seed, order, pick);
    if r.Split? {
      var b := BinSize(|rows|, DesiredDevCount(|rows|, testSize));
      if b > 0 {
        SplitDraws(rows, testSize, seed, order, pick);
        SortKeepsDistinctIds(rows, order);
        DrawsKeepOrder(order, r.dev, b, seed, pick);
      } else {
        SplitNegativeBin(rows, testSize, seed, order, pick);
      }
    }
  }

  lemma {:induction false} DropNothing(rows: seq<Row>)
    ensures Drop(rows, []) == rows
  {
    if rows != [] {
      DropNothing(rows[1..]);
    }
  }

  /** Draws from labels without repeats have no repeats. */
  lemma DevLabelsDistinct(order: seq<Row>, b: nat, seed: int, pick: Picker)
    requires b > 0 && ValidPicker(pick) && DistinctIds(order)
    ensures Distinct(DevLabels(order, b, seed, pick))
  {
    var s := Ids(order);
    var d := DevLabels(order, b, seed, pick);
    DrawPositions(s, b, seed, pick);
    forall i, j | 0 <= i < j < |d| ensures d[i] != d[j] {
      DrawsIncreasing(|s|, b, seed, pick, i, j);
    }
  }

  // ---------------------------------------------------------------------------
  // Worked cases

  /** 100 rows with `test_size = 0.1`: desired 10, bin size 10, so 10 dev rows and 90 train rows. */
  lemma HundredRowsTenthDev(rows: seq<Row>, seed: int, order: seq<Row>, pick: Picker)
    requires |rows| == 100 && DistinctIds(rows) && IsSortValues(rows, order) && ValidPicker(pick)
    ensures var r := StratifiedSplit(rows, 0.1, seed, order, pick);
            r.Split? && |r.dev| == 10 && |r.train| == 90
  {
    RoundOfInteger(10);
    assert DesiredDevCount(100, 0.1) == 10;
    assert BinSize(100, 10) == 10;
    var r := StratifiedSplit(rows, 0.1, seed, order, pick);
    SplitDraws(rows, 0.1, seed, order, pick);
    assert |order| == 100 by { assert |multiset(rows)| == |multiset(order)|; }
    assert OneDrawPerWindow(order, r.dev, 10, seed, pick);
    assert |r.dev| == (100 + 10 - 1) / 10;
    SplitPartitions(rows, 0.1, seed, order, pick);
  }

  /** 5 rows with `test_size = 0.01`: `round(0.05)` is 0 and the bin size divides by zero. */
  lemma TinyTestSizeFails(rows: seq<Row>, seed: int, order: seq<Row>, pick: Picker)
    requires |rows| == 5 && IsSortValues(rows, order) && ValidPicker(pick)
    ensures StratifiedSplit(rows, 0.01, seed, order, pick) == Failed(ZeroDivisionError)
  {
    RoundHalfEvenUnique(0.05, 0);
  }

  /** 25 rows with `test_size = 0.1`: `round(2.5)` is 2 (half to even) and `round(12.5)` is 12,
      so the windows give ceil(25 / 12) = 3 dev rows, not the desired 2. */
  lemma DevCountDrift(rows: seq<Row>, seed: int, order: seq<Row>, pick: Picker)
    requires |rows| == 25 && DistinctIds(rows) && IsSortValues(rows, order) && ValidPicker(pick)
    ensures DesiredDevCount(25, 0.1) == 2
    ensures var r := StratifiedSplit(rows, 0.1, seed, order, pick);
            r.Split? && |r.dev| == 3 && |r.train| == 22
  {
    RoundHalfEvenUnique(2.5, 2);
    RoundHalfEvenUnique(12.5, 12);
    assert BinSize(25, 2) == 12;
    var r := StratifiedSplit(rows, 0.1, seed, order, pick);
    SplitDraws(rows, 0.1, seed, order, pick);
    assert |order| == 25 by { assert |multiset(rows)| == |multiset(order)|; }
    assert OneDrawPerWindow(order, r.dev, 12, seed, pick);
    assert |r.dev| == (25 + 12 - 1) / 12;
    SplitPartitions(rows, 0.1, seed, order, pick);
  }
}
