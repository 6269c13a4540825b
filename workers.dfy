/** The worker pipeline of one pool (the body of the loop in `build_dashboard`):
    keep the active workers, sort them by lower-cased name, find the top
    hashrate, flag the best rows and substitute a placeholder for missing names. */
module Workers {
  import opened PoolData
  import opened Text

  /** `w.get("hashrate", 0)` */
  function Rate(w: Worker): int { w.hashrate.GetOr(0) }

  /** The predicate shared by the count and the filter. */
  predicate IsActive(w: Worker) { Rate(w) > 0 }

  /** `[w for w in workers if w.get("hashrate", 0) > 0]` */
  function Active(ws: seq<Worker>): (r: seq<Worker>)
    ensures |r| <= |ws|
    ensures forall i :: 0 <= i < |r| ==> IsActive(r[i])
  {
    if ws == [] then [] else (if IsActive(ws[0]) then [ws[0]] else []) + Active(ws[1..])
  }

  /** `len([w for w in workers if w.get("hashrate", 0) > 0])`, the active-worker count. */
  function ActiveCount(ws: seq<Worker>): (n: nat)
    ensures n <= |ws|
    ensures n == 0 <==> forall i :: 0 <= i < |ws| ==> !IsActive(ws[i])
    ensures n == |ws| <==> forall i :: 0 <= i < |ws| ==> IsActive(ws[i])
  {
    if ws == [] then 0 else (if IsActive(ws[0]) then 1 else 0) + ActiveCount(ws[1..])
  }

  /** The filter keeps every active occurrence and drops every inactive one. */
  lemma {:induction false} ActiveKeepsExactlyActive(ws: seq<Worker>, w: Worker)
    ensures multiset(Active(ws))[w] == if IsActive(w) then multiset(ws)[w] else 0
  {
    if ws != [] {
      ActiveKeepsExactlyActive(ws[1..], w);
      assert ws == [ws[0]] + ws[1..];
    }
  }

  /** The count on line 52 and the list on line 59 use the same predicate, so they agree. */
  lemma {:induction false} ActiveCountIsLength(ws: seq<Worker>)
    ensures ActiveCount(ws) == |Active(ws)|
  {
    if ws != [] { ActiveCountIsLength(ws[1..]); }
  }

  // ---------------------------------------------------------------------------
  // Sorting by `w.get("name", "").lower()`

  function SortKey(w: Worker): string { Lower(w.name.GetOr("")) }

  /** Key order used by `sorted`: `a` may precede `b` when `b`'s key is not smaller. */
  predicate KeyLe(a: Worker, b: Worker) { !Less(SortKey(b), SortKey(a)) }

  predicate SortedByKey(s: seq<Worker>) {
    forall i, j :: 0 <= i < j < |s| ==> KeyLe(s[i], s[j])
  }

  /** The workers of `s` whose key is `k`, in their order in `s`. */
  function WithKey(s: seq<Worker>, k: string): (r: seq<Worker>)
    ensures forall i :: 0 <= i < |r| ==> SortKey(r[i]) == k
  {
    if s == [] then [] else (if SortKey(s[0]) == k then [s[0]] else []) + WithKey(s[1..], k)
  }

  /** Inserts `x` before the first element whose key is not smaller than `x`'s key. */
  function Insert(x: Worker, s: seq<Worker>): (r: seq<Worker>)
    ensures |r| == |s| + 1
    ensures multiset(r) == multiset(s) + multiset{x}
  {
    if s == [] then [x]
    else if KeyLe(x, s[0]) then [x] + s
    else
      assert s == [s[0]] + s[1..];
      [s[0]] + Insert(x, s[1..])
  }

  /** Python's stable `sorted(s, key=SortKey)`, written as an insertion sort. */
  function SortByName(s: seq<Worker>): (r: seq<Worker>)
    ensures |r| == |s|
  {
    if s == [] then [] else Insert(s[0], SortByName(s[1..]))
  }

  lemma {:induction false} InsertSorted(x: Worker, s: seq<Worker>)
    requires SortedByKey(s)
    ensures SortedByKey(Insert(x, s))
  {
    if s != [] && !KeyLe(x, s[0]) {
      var rest := Insert(x, s[1..]);
      InsertSorted(x, s[1..]);
      assert Insert(x, s) == [s[0]] + rest;
      LessAsymmetric(SortKey(s[0]), SortKey(x));
      forall j | 0 <= j < |rest| ensures KeyLe(s[0], rest[j]) {
        assert rest[j] in multiset(s[1..]) + multiset{x};
        if rest[j] != x {
          assert rest[j] in s[1..];
        }
      }
    } else if s != [] {
      forall j | 0 <= j < |s| ensures KeyLe(x, s[j]) {
        if j > 0 && Less(SortKey(s[j]), SortKey(x)) {
          assert KeyLe(s[0], s[j]);
          LeLessTransitive(SortKey(s[0]), SortKey(s[j]), SortKey(x));
        }
      }
    }
  }

  /** The displayed order is non-decreasing in the lower-cased name. */
  lemma {:induction false} SortByNameSorted(s: seq<Worker>)
    ensures SortedByKey(SortByName(s))
  {
    if s != [] {
      SortByNameSorted(s[1..]);
      InsertSorted(s[0], SortByName(s[1..]));
    }
  }

  /** Sorting only rearranges: the output is a permutation of the input. */
  lemma {:induction false} SortByNamePermutes(s: seq<Worker>)
    ensures multiset(SortByName(s)) == multiset(s)
  {
    if s != [] {
      SortByNamePermutes(s[1..]);
      assert s == [s[0]] + s[1..];
    }
  }

  lemma {:induction false} WithKeyAppend(a: seq<Worker>, b: seq<Worker>, k: string)
    ensures WithKey(a + b, k) == WithKey(a, k) + WithKey(b, k)
  {
    if a != [] {
      assert (a + b)[0] == a[0] && (a + b)[1..] == a[1..] + b;
      WithKeyAppend(a[1..], b, k);
      assert WithKey(a + b, k) == (if SortKey(a[0]) == k then [a[0]] else []) + WithKey(a[1..] + b, k);
    } else {
      assert a + b == b;
    }
  }

  /** In a sorted sequence, an element inserted ahead of its equals comes first among them. */
  lemma {:induction false} WithKeyInsert(x: Worker, s: seq<Worker>, k: string)
    requires SortedByKey(s)
    ensures WithKey(Insert(x, s), k) == (if SortKey(x) == k then [x] else []) + WithKey(s, k)
  {
    if s != [] && !KeyLe(x, s[0]) {
      WithKeyInsert(x, s[1..], k);
      if SortKey(x) == k {
        LessIrreflexive(k);
        assert SortKey(s[0]) != k;
      }
      assert Insert(x, s) == [s[0]] + Insert(x, s[1..]);
    } else if s != [] {
      assert Insert(x, s) == [x] + s;
    }
  }

  /** Stability: among workers with equal keys, the input order is kept. */
  lemma {:induction false} SortByNameStable(s: seq<Worker>, k: string)
    ensures WithKey(SortByName(s), k) == WithKey(s, k)
  {
    if s != [] {
      SortByNameStable(s[1..], k);
      SortByNameSorted(s[1..]);
      WithKeyInsert(s[0], SortByName(s[1..]), k);
    }
  }

  lemma {:induction false} WithKeyMember(s: seq<Worker>, k: string)
    requires WithKey(s, k) != []
    ensures exists i :: 0 <= i < |s| && SortKey(s[i]) == k
  {
    if s != [] && SortKey(s[0]) != k {
      WithKeyMember(s[1..], k);
      var i :| 0 <= i < |s[1..]| && SortKey(s[1..][i]) == k;
      assert SortKey(s[i + 1]) == k;
    }
  }

  /** In a sorted sequence the first key is the least. */
  lemma SortedHeadLeast(s: seq<Worker>, k: string)
    requires SortedByKey(s) && WithKey(s, k) != []
    ensures !Less(k, SortKey(s[0]))
  {
    WithKeyMember(s, k);
    var i :| 0 <= i < |s| && SortKey(s[i]) == k;
    if i == 0 { LessIrreflexive(k); } else { assert KeyLe(s[0], s[i]); }
  }

  lemma WithKeyCons(s: seq<Worker>, k: string)
    requires s != []
    ensures WithKey(s, k) == (if SortKey(s[0]) == k then [s[0]] else []) + WithKey(s[1..], k)
  {
  }

  /** Two sorted sequences with the same workers per key start with the same worker. */
  lemma SameHead(t: seq<Worker>, u: seq<Worker>)
    requires t != [] && u != [] && SortedByKey(t) && SortedByKey(u)
    requires forall k :: WithKey(t, k) == WithKey(u, k)
    ensures t[0] == u[0]
  {
    var kt, ku := SortKey(t[0]), SortKey(u[0]);
    WithKeyCons(t, kt);
    WithKeyCons(u, ku);
    SortedHeadLeast(u, kt);
    SortedHeadLeast(t, ku);
    NotLess(kt, ku);
    if kt != ku { LessAsymmetric(ku, kt); }
    assert kt == ku;
    WithKeyCons(u, kt);
    assert WithKey(t, kt)[0] == t[0];
    assert WithKey(u, kt)[0] == u[0];
  }

  lemma SameTails(t: seq<Worker>, u: seq<Worker>)
    requires t != [] && u != [] && t[0] == u[0]
    requires forall k :: WithKey(t, k) == WithKey(u, k)
    ensures forall k :: WithKey(t[1..], k) == WithKey(u[1..], k)
  {
    forall k ensures WithKey(t[1..], k) == WithKey(u[1..], k) {
      var head := if SortKey(t[0]) == k then [t[0]] else [];
      WithKeyCons(t, k);
      WithKeyCons(u, k);
      assert WithKey(t[1..], k) == WithKey(t, k)[|head|..];
      assert WithKey(u[1..], k) == WithKey(u, k)[|head|..];
    }
  }

  lemma SortedTail(s: seq<Worker>)
    requires s != [] && SortedByKey(s)
    ensures SortedByKey(s[1..])
  {
    forall i, j | 0 <= i < j < |s[1..]| ensures KeyLe(s[1..][i], s[1..][j]) {
      assert s[1..][i] == s[i + 1] && s[1..][j] == s[j + 1];
    }
  }

  /** Being sorted and keeping, for every key, the input's order of that key's
      workers determines the arrangement: there is only one stable sort. */
  lemma {:induction false} StableSortUnique(t: seq<Worker>, u: seq<Worker>)
    requires SortedByKey(t) && SortedByKey(u)
    requires forall k :: WithKey(t, k) == WithKey(u, k)
    ensures t == u
    decreases |t| + |u|
  {
    if t == [] && u != [] {
      WithKeyCons(u, SortKey(u[0]));
    } else if t != [] && u == [] {
      WithKeyCons(t, SortKey(t[0]));
    } else if t != [] {
      SameHead(t, u);
      SameTails(t, u);
      SortedTail(t);
      SortedTail(u);
      StableSortUnique(t[1..], u[1..]);
      assert t == [t[0]] + t[1..] && u == [u[0]] + u[1..];
    }
  }

  /** `SortByName` is the stable sort of its input: sorted, a permutation, order-preserving
      within equal keys, and any arrangement with those properties equals it. */
  lemma IsStableSortOf(s: seq<Worker>, t: seq<Worker>)
    requires SortedByKey(t)
    requires forall k :: WithKey(t, k) == WithKey(s, k)
    ensures t == SortByName(s)
  {
    SortByNameSorted(s);
    forall k ensures WithKey(t, k) == WithKey(SortByName(s), k) {
      SortByNameStable(s, k);
    }
    StableSortUnique(t, SortByName(s));
  }

  /** `sorted([...active...], key=lambda w: w.get("name", "").lower())` */
  function Displayed(ws: seq<Worker>): seq<Worker> { SortByName(Active(ws)) }

  // ---------------------------------------------------------------------------
  // Top hashrate and the rows of the table

  /** `max((w.get("hashrate", 0) for w in s), default=0)` */
  function Top(s: seq<Worker>): (r: int)
    ensures s == [] ==> r == 0
    ensures forall i :: 0 <= i < |s| ==> Rate(s[i]) <= r
    ensures s != [] ==> exists i :: 0 <= i < |s| && Rate(s[i]) == r
  {
    if s == [] then 0
    else if |s| == 1 then Rate(s[0])
    else
      var rest := Top(s[1..]);
      assert forall i :: 1 <= i < |s| ==> Rate(s[i]) <= rest by {
        forall i | 1 <= i < |s| ensures Rate(s[i]) <= rest { assert s[i] == s[1..][i - 1]; }
      }
      if Rate(s[0]) >= rest then Rate(s[0]) else
        var j :| 0 <= j < |s[1..]| && Rate(s[1..][j]) == rest;
        assert Rate(s[j + 1]) == rest;
        rest
  }

  /** `worker.get("name") or "(unnamed)"` */
  function DisplayName(w: Worker): (r: string)
    ensures r != []
  {
    if w.name.None? || w.name.value == "" then "(unnamed)" else w.name.value
  }

  /** One table row: the name shown, the hashrate shown, and whether it is highlighted. */
  datatype Row = Row(name: string, rate: int, best: bool)

  function RowFor(w: Worker, top: int): Row {
    Row(DisplayName(w), Rate(w), Rate(w) == top)
  }

  /** The table of `shown`: one row per worker, in order, highlighted against `top`. */
  function Table(shown: seq<Worker>, top: int): (rows: seq<Row>)
    ensures |rows| == |shown|
  {
    seq(|shown|, i requires 0 <= i < |shown| => RowFor(shown[i], top))
  }

  /** Everything the pool panel shows apart from its label. */
  datatype Summary = Summary(total: int, active: nat, rows: seq<Row>)

  function WorkersOf(d: Dataset): seq<Worker> { d.workers.GetOr([]) }

  /** `stats.get("hashrate", 0)` with `stats = dataset.get("stats", {})` */
  function TotalOf(d: Dataset): int { d.stats.GetOr(Stats(None)).hashrate.GetOr(0) }

  /** Lines 49-72 for a dataset without an `error` key. */
  function Aggregate(d: Dataset): (r: Summary)
    ensures r.total == TotalOf(d)
    ensures |r.rows| == |Displayed(WorkersOf(d))|
    ensures forall i :: 0 <= i < |r.rows| ==>
              r.rows[i].name == DisplayName(Displayed(WorkersOf(d))[i]) &&
              r.rows[i].rate == Rate(Displayed(WorkersOf(d))[i])
  {
    var shown := Displayed(WorkersOf(d));
    var top := Top(shown);
    Summary(TotalOf(d), ActiveCount(WorkersOf(d)), Table(shown, top))
  }

  // ---------------------------------------------------------------------------
  // What the pool panel promises

  /** The rows are the active workers, each once per occurrence, and nothing else. */
  lemma RowsAreActiveWorkers(d: Dataset)
    ensures |Aggregate(d).rows| == |Active(WorkersOf(d))|
    ensures multiset(Displayed(WorkersOf(d))) == multiset(Active(WorkersOf(d)))
    ensures forall w :: multiset(Displayed(WorkersOf(d)))[w] ==
                        if IsActive(w) then multiset(WorkersOf(d))[w] else 0
    ensures forall i :: 0 <= i < |Aggregate(d).rows| ==> Aggregate(d).rows[i].rate == Rate(Displayed(WorkersOf(d))[i])
  {
    SortByNamePermutes(Active(WorkersOf(d)));
    forall w ensures multiset(Displayed(WorkersOf(d)))[w] ==
                     if IsActive(w) then multiset(WorkersOf(d))[w] else 0 {
      ActiveKeepsExactlyActive(WorkersOf(d), w);
    }
  }

  /** The rows are in non-decreasing lower-cased-name order, equal names in input order. */
  lemma RowsSortedAndStable(d: Dataset)
    ensures SortedByKey(Displayed(WorkersOf(d)))
    ensures forall k :: WithKey(Displayed(WorkersOf(d)), k) == WithKey(Active(WorkersOf(d)), k)
  {
    SortByNameSorted(Active(WorkersOf(d)));
    forall k ensures WithKey(Displayed(WorkersOf(d)), k) == WithKey(Active(WorkersOf(d)), k) {
      SortByNameStable(Active(WorkersOf(d)), k);
    }
  }

  /** The active count equals the number of rows; the total is the pool's own figure. */
  lemma CountAndTotal(d: Dataset)
    ensures Aggregate(d).active == |Aggregate(d).rows|
    ensures Aggregate(d).total == (if d.stats.Some? && d.stats.value.hashrate.Some?
                                   then d.stats.value.hashrate.value else 0)
    ensures forall ws :: Aggregate(d.(workers := ws)).total == Aggregate(d).total
  {
    ActiveCountIsLength(WorkersOf(d));
  }

  /** Every shown hashrate is positive. */
  lemma ShownRatesPositive(d: Dataset)
    ensures forall i :: 0 <= i < |Aggregate(d).rows| ==> Aggregate(d).rows[i].rate > 0
  {
    var shown := Displayed(WorkersOf(d));
    SortByNamePermutes(Active(WorkersOf(d)));
    forall i | 0 <= i < |shown| ensures Rate(shown[i]) > 0 {
      assert shown[i] in multiset(Active(WorkersOf(d)));
    }
  }

  /** A row is highlighted exactly when no shown hashrate exceeds its own; when any
      row is shown at least one is highlighted, and every shown hashrate is positive. */
  lemma BestFlags(d: Dataset)
    ensures var rows := Aggregate(d).rows;
      (forall i :: 0 <= i < |rows| ==> rows[i].rate > 0) &&
      (forall i :: 0 <= i < |rows| ==>
         (rows[i].best <==> forall j :: 0 <= j < |rows| ==> rows[j].rate <= rows[i].rate)) &&
      (rows != [] ==> exists i :: 0 <= i < |rows| && rows[i].best)
  {
    ShownRatesPositive(d);
    var shown := Displayed(WorkersOf(d));
    var rows := Aggregate(d).rows;
    var top := Top(shown);
    assert forall i :: 0 <= i < |rows| ==> rows[i].rate == Rate(shown[i]) && (rows[i].best <==> Rate(shown[i]) == top);
    if rows != [] {
      var m :| 0 <= m < |shown| && Rate(shown[m]) == top;
      assert rows[m].best;
      assert forall i :: 0 <= i < |rows| ==> rows[i].best ==> forall j :: 0 <= j < |rows| ==> rows[j].rate <= rows[i].rate;
      assert forall i :: 0 <= i < |rows| ==> (forall j :: 0 <= j < |rows| ==> rows[j].rate <= rows[i].rate) ==> rows[m].rate <= rows[i].rate;
    }
  }

  /** An empty or missing name shows as `(unnamed)`; any other name shows unchanged. */
  lemma NamesShown(d: Dataset)
    ensures var shown := Displayed(WorkersOf(d));
      forall i :: 0 <= i < |shown| ==>
        Aggregate(d).rows[i].name ==
          (if shown[i].name.Some? && shown[i].name.value != "" then shown[i].name.value else "(unnamed)")
  {
  }

  /** Workers `[("B", 1), ("a", 2), ("b", 3)]` are shown as a, B, b with rates 2, 1, 3. */
  lemma SortExample()
    ensures var ws := [Worker(Some("B"), Some(1)), Worker(Some("a"), Some(2)), Worker(Some("b"), Some(3))];
      Displayed(ws) == [ws[1], ws[0], ws[2]]
  {
    var ws := [Worker(Some("B"), Some(1)), Worker(Some("a"), Some(2)), Worker(Some("b"), Some(3))];
    assert Lower("B") == "b" && Lower("a") == "a" && Lower("b") == "b";
    assert Active(ws) == ws;
    assert SortByName(ws[2..]) == [ws[2]];
    assert SortByName(ws[1..]) == [ws[1], ws[2]];
  }
}
