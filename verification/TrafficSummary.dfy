/**
 * Reading the traffic table, gateway/sbegw/dpi.py: the largest (client, protocol) rows, and their totals
 * by application, by category and by client.
 */
module TrafficSummary {
  import opened Wrappers
  import opened Ledgers
  import opened Traffic

  const DEFAULT_ROWS := 500
  const MOST_ROWS := 5000

  datatype Volume = Volume(rx: nat, tx: nat)

  const NOTHING := Volume(0, 0)

  function Plus(a: Volume, b: Volume): Volume {
    Volume(a.rx + b.rx, a.tx + b.tx)
  }

  function Size(b: Volume): nat {
    b.rx + b.tx
  }

  function OrNothing(b: Option<Volume>): Volume {
    if b.Some? then b.value else NOTHING
  }

  // ----------------------------------------------------- totals under a key

  /** Something that carries bytes under a key. */
  type Item<K> = (K, Volume)

  function Total<K>(items: seq<Item<K>>): Volume {
    if items == [] then NOTHING else Plus(items[0].1, Total(items[1..]))
  }

  /** The sum over the items under one key, if there are any: the meaning of a tally. */
  function TotalOf<K(==)>(items: seq<Item<K>>, k: K): Option<Volume> {
    if items == [] then None
    else
      var last, before := items[|items| - 1], TotalOf(items[..|items| - 1], k);
      if last.0 == k then Some(Plus(OrNothing(before), last.1)) else before
  }

  function Added<K(==)>(l: Ledger<K, Volume>, item: Item<K>): Ledger<K, Volume> {
    Put(l, item.0, Plus(OrNothing(Find(l, item.0)), item.1))
  }

  /** Accumulating item by item into a dictionary. */
  function Tally<K(==)>(items: seq<Item<K>>): Ledger<K, Volume> {
    if items == [] then [] else Added(Tally(items[..|items| - 1]), items[|items| - 1])
  }

  lemma {:induction false} TallyKeyed<K>(items: seq<Item<K>>)
    ensures Keyed(Tally(items))
  {
    if items != [] {
      var l, last := Tally(items[..|items| - 1]), items[|items| - 1];
      TallyKeyed(items[..|items| - 1]);
      PutKeepsKeyed(l, last.0, Plus(OrNothing(Find(l, last.0)), last.1));
    }
  }

  lemma {:induction false} TallyIsExact<K>(items: seq<Item<K>>, k: K)
    ensures Find(Tally(items), k) == TotalOf(items, k)
  {
    if items != [] {
      var l, last := Tally(items[..|items| - 1]), items[|items| - 1];
      TallyIsExact(items[..|items| - 1], k);
      PutFinds(l, last.0, Plus(OrNothing(Find(l, last.0)), last.1), k);
    }
  }

  function Rx(b: Volume): int { b.rx }

  function Tx(b: Volume): int { b.tx }

  lemma {:induction false} TotalIsWeigh<K>(items: seq<Item<K>>)
    ensures Total(items).rx == Weigh(items, Rx) && Total(items).tx == Weigh(items, Tx)
  {
    if items != [] {
      TotalIsWeigh(items[1..]);
    }
  }

  lemma {:induction false} TotalSplit<K>(items: seq<Item<K>>, n: nat)
    requires n <= |items|
    ensures Total(items) == Plus(Total(items[..n]), Total(items[n..]))
  {
    if n == 0 {
      assert items[0..] == items;
    } else {
      TotalSplit(items[1..], n - 1);
      assert items[1..][..n - 1] == items[..n][1..] && items[1..][n - 1..] == items[n..];
    }
  }

  lemma TotalLast<K>(items: seq<Item<K>>)
    requires items != []
    ensures Total(items) == Plus(Total(items[..|items| - 1]), items[|items| - 1].1)
  {
    TotalSplit(items, |items| - 1);
    assert items[|items| - 1..] == [items[|items| - 1]];
  }

  lemma {:induction false} AddedTotal<K>(l: Ledger<K, Volume>, item: Item<K>)
    ensures Total(Added(l, item)) == Plus(Total(l), item.1)
  {
    var v := Plus(OrNothing(Find(l, item.0)), item.1);
    PutWeighs(l, item.0, v, Rx);
    PutWeighs(l, item.0, v, Tx);
    TotalIsWeigh(l);
    TotalIsWeigh(Added(l, item));
  }

  /** What is tallied is what was there. */
  lemma {:induction false} TallyConserves<K>(items: seq<Item<K>>)
    ensures Total(Tally(items)) == Total(items)
  {
    if items != [] {
      TallyConserves(items[..|items| - 1]);
      AddedTotal(Tally(items[..|items| - 1]), items[|items| - 1]);
      TotalLast(items);
    }
  }

  // ----------------------------------------------------------------- ordering

  function InsertDown<K>(items: seq<Item<K>>, x: Item<K>): seq<Item<K>> {
    if items == [] then [x]
    else if Size(items[0].1) < Size(x.1) then [x] + items
    else [items[0]] + InsertDown(items[1..], x)
  }

  /** Largest first; among equals the first seen stays first. */
  function Ordered<K>(items: seq<Item<K>>): seq<Item<K>> {
    if items == [] then [] else InsertDown(Ordered(items[..|items| - 1]), items[|items| - 1])
  }

  predicate Descending<K>(items: seq<Item<K>>) {
    forall i | 0 < i < |items| :: Size(items[i - 1].1) >= Size(items[i].1)
  }

  lemma {:induction false} DescendingApart<K>(items: seq<Item<K>>, i: nat, j: nat)
    requires Descending(items) && i <= j < |items|
    ensures Size(items[i].1) >= Size(items[j].1)
    decreases j
  {
    if i < j {
      DescendingApart(items, i, j - 1);
    }
  }

  lemma {:induction false} InsertDownDescends<K>(items: seq<Item<K>>, x: Item<K>)
    requires Descending(items)
    ensures Descending(InsertDown(items, x))
    ensures InsertDown(items, x) != []
    ensures InsertDown(items, x)[0] == x || (items != [] && InsertDown(items, x)[0] == items[0])
    ensures Total(InsertDown(items, x)) == Plus(Total(items), x.1)
  {
    if items == [] {
      assert InsertDown(items, x)[1..] == [];
    } else if Size(items[0].1) < Size(x.1) {
      assert ([x] + items)[1..] == items;
    } else {
      InsertDownDescends(items[1..], x);
      assert InsertDown(items, x)[1..] == InsertDown(items[1..], x);
    }
  }

  lemma {:induction false} InsertDownFinds<K>(items: seq<Item<K>>, x: Item<K>, k: K)
    requires Find(items, x.0).None?
    ensures Find(InsertDown(items, x), k) == if k == x.0 then Some(x.1) else Find(items, k)
  {
    if items == [] {
      assert InsertDown(items, x)[1..] == [];
    } else if Size(items[0].1) < Size(x.1) {
      assert ([x] + items)[1..] == items;
    } else {
      assert items[0].0 != x.0;
      assert Find(items[1..], x.0).None?;
      InsertDownFinds(items[1..], x, k);
      assert InsertDown(items, x)[1..] == InsertDown(items[1..], x);
    }
  }

  lemma {:induction false} InsertDownKeyed<K>(items: seq<Item<K>>, x: Item<K>)
    requires Keyed(items) && Find(items, x.0).None?
    ensures Keyed(InsertDown(items, x))
  {
    if items != [] && Size(items[0].1) >= Size(x.1) {
      assert items[0].0 != x.0;
      assert Find(items[1..], x.0).None?;
      InsertDownKeyed(items[1..], x);
      InsertDownFinds(items[1..], x, items[0].0);
      assert Find(items[1..], items[0].0).None?;
    }
  }

  lemma {:induction false} FindBeforeLast<K>(items: seq<Item<K>>, k: K)
    requires Keyed(items) && items != []
    ensures Find(items[..|items| - 1], items[|items| - 1].0).None?
    ensures Find(items, k) ==
            if k == items[|items| - 1].0 then Some(items[|items| - 1].1) else Find(items[..|items| - 1], k)
  {
    if |items| > 1 {
      FindBeforeLast(items[1..], k);
      assert items[..|items| - 1][1..] == items[1..][..|items| - 2];
    }
  }

  /** Ordering a dictionary's entries changes nothing but their order. */
  lemma {:induction false} OrderedResult<K>(items: seq<Item<K>>)
    requires Keyed(items)
    ensures Keyed(Ordered(items)) && Descending(Ordered(items))
    ensures Total(Ordered(items)) == Total(items)
    ensures forall k: K :: Find(Ordered(items), k) == Find(items, k)
  {
    if items != [] {
      var init, last := items[..|items| - 1], items[|items| - 1];
      OrderedResult(init);
      FindBeforeLast(items, last.0);
      InsertDownDescends(Ordered(init), last);
      InsertDownKeyed(Ordered(init), last);
      TotalLast(items);
      forall k: K ensures Find(Ordered(items), k) == Find(items, k) {
        FindBeforeLast(items, k);
        InsertDownFinds(Ordered(init), last, k);
      }
    }
  }

  /** A list of totals: one entry for each key among the items, with that key's sum, largest first. */
  ghost predicate TotalsOf<K(!new)>(entries: seq<Item<K>>, items: seq<Item<K>>) {
    && Keyed(entries) && Descending(entries)
    && (forall k: K :: Find(entries, k) == TotalOf(items, k))
    && Total(entries) == Total(items)
  }

  lemma {:induction false} OrderedTally<K(!new)>(items: seq<Item<K>>)
    ensures TotalsOf(Ordered(Tally(items)), items)
  {
    TallyKeyed(items);
    TallyConserves(items);
    OrderedResult(Tally(items));
    forall k: K ensures Find(Ordered(Tally(items)), k) == TotalOf(items, k) {
      TallyIsExact(items, k);
    }
  }

  // --------------------------------------------------------------------- rows

  datatype Group = Group(client: Client, protocol: string)

  type Row = (Group, Volume)

  function BucketItem(e: (Key, Bucket)): Row {
    (Group(e.0.client, e.0.protocol), Volume(e.1.rx, e.1.tx))
  }

  function BucketItems(buckets: Ledger<Key, Bucket>): seq<Row> {
    seq(|buckets|, i requires 0 <= i < |buckets| => BucketItem(buckets[i]))
  }

  /** The category a row is given: the greatest among its buckets. */
  function CategoryOf(buckets: Ledger<Key, Bucket>, g: Group): Option<int> {
    if buckets == [] then None
    else
      var rest := CategoryOf(buckets[1..], g);
      if BucketItem(buckets[0]).0 != g then rest
      else if rest.Some? && rest.value > buckets[0].1.app.category then rest
      else Some(buckets[0].1.app.category)
  }

  function Limit(limit: int): nat {
    var capped := if limit < MOST_ROWS then limit else MOST_ROWS;
    if capped < 1 then 1 else capped
  }

  function First<T>(xs: seq<T>, n: nat): seq<T> {
    if |xs| <= n then xs else xs[..n]
  }

  function Rows(buckets: Ledger<Key, Bucket>, limit: int): seq<Row> {
    First(Ordered(Tally(BucketItems(buckets))), Limit(limit))
  }

  lemma {:induction false} FirstFinds<K>(items: seq<Item<K>>, n: nat, k: K)
    requires Keyed(items) && Descending(items)
    ensures
      var first := First(items, n);
      Find(first, k) == Find(items, k)
      || (Find(first, k).None? && |first| == n && n < |items|
          && forall i | 0 <= i < n :: Size(first[i].1) >= Size(Find(items, k).value))
  {
    var first := First(items, n);
    if Find(first, k).Some? {
      var i :| 0 <= i < |first| && first[i].0 == k && first[i].1 == Find(first, k).value;
      FindAt(items, i);
    } else if Find(items, k).Some? {
      var a :| 0 <= a < |items| && items[a].0 == k && items[a].1 == Find(items, k).value;
      assert forall i | 0 <= i < |first| :: first[i] == items[i];
      assert a >= |first|;
      forall i | 0 <= i < n ensures Size(first[i].1) >= Size(items[a].1) {
        DescendingApart(items, i, a);
      }
    }
  }

  /**
   * Each row is the exact total of its client and protocol over all buckets, no pair twice, largest first;
   * a pair that has buckets but no row is left out by the limit, behind rows at least as large as it.
   */
  lemma {:induction false} RowsAreLargestTotals(buckets: Ledger<Key, Bucket>, limit: int, g: Group)
    ensures
      var items := BucketItems(buckets);
      var rows := Rows(buckets, limit);
      && Keyed(rows) && Descending(rows) && |rows| <= Limit(limit)
      && (Find(rows, g) == TotalOf(items, g)
          || (Find(rows, g).None? && |rows| == Limit(limit)
              && forall i | 0 <= i < |rows| :: Size(rows[i].1) >= Size(TotalOf(items, g).value)))
  {
    var items := BucketItems(buckets);
    OrderedTally(items);
    FirstFinds(Ordered(Tally(items)), Limit(limit), g);
  }

  // ------------------------------------------------------------------ summary

  datatype Summary = Summary(
    applications: seq<Item<string>>,
    categories: seq<Item<Option<int>>>,
    clients: seq<Item<Client>>)

  function AppItem(row: Row): Item<string> { (row.0.protocol, row.1) }

  function ClientItem(row: Row): Item<Client> { (row.0.client, row.1) }

  function CategoryItem(buckets: Ledger<Key, Bucket>, row: Row): Item<Option<int>> {
    (CategoryOf(buckets, row.0), row.1)
  }

  function AppItems(rows: seq<Row>): seq<Item<string>> {
    seq(|rows|, i requires 0 <= i < |rows| => AppItem(rows[i]))
  }

  function ClientItems(rows: seq<Row>): seq<Item<Client>> {
    seq(|rows|, i requires 0 <= i < |rows| => ClientItem(rows[i]))
  }

  function CategoryItems(buckets: Ledger<Key, Bucket>, rows: seq<Row>): seq<Item<Option<int>>> {
    seq(|rows|, i requires 0 <= i < |rows| => CategoryItem(buckets, rows[i]))
  }

  lemma {:induction false} SameVolumes<K, L>(a: seq<Item<K>>, b: seq<Item<L>>)
    requires |a| == |b| && forall i | 0 <= i < |a| :: a[i].1 == b[i].1
    ensures Total(a) == Total(b)
  {
    if a != [] {
      SameVolumes(a[1..], b[1..]);
    }
  }

  /** Accumulate every row into its application, its category and its client. */
  method TallyRows(buckets: Ledger<Key, Bucket>, rows: seq<Row>)
    returns (apps: Ledger<string, Volume>, categories: Ledger<Option<int>, Volume>, clients: Ledger<Client, Volume>)
    ensures apps == Tally(AppItems(rows))
    ensures categories == Tally(CategoryItems(buckets, rows))
    ensures clients == Tally(ClientItems(rows))
  {
    apps, categories, clients := [], [], [];
    for i := 0 to |rows|
      invariant apps == Tally(AppItems(rows[..i]))
      invariant categories == Tally(CategoryItems(buckets, rows[..i]))
      invariant clients == Tally(ClientItems(rows[..i]))
    {
      assert AppItems(rows[..i + 1])[..i] == AppItems(rows[..i]);
      assert CategoryItems(buckets, rows[..i + 1])[..i] == CategoryItems(buckets, rows[..i]);
      assert ClientItems(rows[..i + 1])[..i] == ClientItems(rows[..i]);
      apps := Added(apps, AppItem(rows[i]));
      categories := Added(categories, CategoryItem(buckets, rows[i]));
      clients := Added(clients, ClientItem(rows[i]));
    }
    assert rows[..|rows|] == rows;
  }

  lemma ItemsCarryTheRows(buckets: Ledger<Key, Bucket>, rows: seq<Row>)
    ensures Total(AppItems(rows)) == Total(CategoryItems(buckets, rows)) == Total(ClientItems(rows)) == Total(rows)
  {
    SameVolumes(AppItems(rows), rows);
    SameVolumes(CategoryItems(buckets, rows), rows);
    SameVolumes(ClientItems(rows), rows);
  }

  /** Totals by application, category and client, largest first. */
  method Summarise(buckets: Ledger<Key, Bucket>) returns (s: Summary)
    ensures
      var rows := Rows(buckets, DEFAULT_ROWS);
      && TotalsOf(s.applications, AppItems(rows))
      && TotalsOf(s.categories, CategoryItems(buckets, rows))
      && TotalsOf(s.clients, ClientItems(rows))
      && Total(s.applications) == Total(s.categories) == Total(s.clients) == Total(rows)
  {
    var rows := Rows(buckets, DEFAULT_ROWS);
    var apps, categories, clients := TallyRows(buckets, rows);
    OrderedTally(AppItems(rows));
    OrderedTally(CategoryItems(buckets, rows));
    OrderedTally(ClientItems(rows));
    ItemsCarryTheRows(buckets, rows);
    s := Summary(Ordered(apps), Ordered(categories), Ordered(clients));
  }

  /** Every row has a category: no total of a summary stands under none. */
  lemma {:induction false} RowsHaveCategories(buckets: Ledger<Key, Bucket>, g: Group)
    ensures CategoryOf(buckets, g).Some? <==> TotalOf(BucketItems(buckets), g).Some?
  {
    if buckets != [] {
      RowsHaveCategories(buckets[1..], g);
      assert BucketItems(buckets)[1..] == BucketItems(buckets[1..]);
      TotalOfFirst(BucketItems(buckets), g);
    }
  }

  lemma {:induction false} TotalOfFirst<K>(items: seq<Item<K>>, k: K)
    requires items != []
    ensures TotalOf(items, k).Some? <==> items[0].0 == k || TotalOf(items[1..], k).Some?
  {
    if |items| > 1 {
      TotalOfFirst(items[..|items| - 1], k);
      assert items[..|items| - 1][1..] == items[1..][..|items| - 2];
    }
  }

  // ------------------------------------------------ what a summary accounts for

  lemma {:induction false} TotalCovers<K>(items: seq<Item<K>>, i: nat)
    requires i < |items|
    ensures items[i].1.rx <= Total(items).rx && items[i].1.tx <= Total(items).tx
  {
    if i > 0 {
      TotalCovers(items[1..], i - 1);
    }
  }

  lemma NothingInTotal<K>(items: seq<Item<K>>, k: K)
    requires Total(items) == NOTHING
    ensures OrNothing(Find(items, k)) == NOTHING
  {
    var found := Find(items, k);
    if found.Some? {
      var i :| 0 <= i < |items| && items[i].0 == k && items[i].1 == found.value;
      TotalCovers(items, i);
    }
  }

  lemma {:induction false} NothingUnderKeys<K(!new)>(items: seq<Item<K>>)
    requires Keyed(items)
    requires forall k: K :: OrNothing(Find(items, k)) == NOTHING
    ensures Total(items) == NOTHING
  {
    if items != [] {
      assert Find(items, items[0].0) == Some(items[0].1);
      forall k: K ensures OrNothing(Find(items[1..], k)) == NOTHING {
        assert OrNothing(Find(items, k)) == NOTHING;
      }
      NothingUnderKeys(items[1..]);
    }
  }

  lemma {:induction false} RestFinds<K>(items: seq<Item<K>>, n: nat, k: K)
    requires Keyed(items) && n <= |items|
    ensures Find(items[..n], k).None? ==> Find(items[n..], k) == Find(items, k)
    ensures Find(items[..n], k).Some? ==> Find(items[n..], k).None?
  {
    if n == 0 {
      assert items[0..] == items;
    } else {
      RestFinds(items[1..], n - 1, k);
      assert items[1..][..n - 1] == items[..n][1..] && items[1..][n - 1..] == items[n..];
      if items[0].0 == k {
        assert forall i | 0 <= i < |items[n..]| :: items[n..][i] == items[n + i];
      }
    }
  }

  /** Every pair without a row carried nothing. */
  ghost predicate LeavesOutNothing(rows: seq<Row>, items: seq<Row>) {
    forall g :: Find(rows, g).None? ==> OrNothing(TotalOf(items, g)) == NOTHING
  }

  /** The totals of a summary are the whole table's if and only if every pair the limit leaves out carried nothing. */
  lemma {:induction false} RowsAccountForAllIff(buckets: Ledger<Key, Bucket>, limit: int)
    ensures
      var items := BucketItems(buckets);
      var rows := Rows(buckets, limit);
      Total(rows) == Total(items) <==> LeavesOutNothing(rows, items)
  {
    var items := BucketItems(buckets);
    var all := Ordered(Tally(items));
    var rows := Rows(buckets, limit);
    OrderedTally(items);
    assert all[..|rows|] == rows;
    FirstAccountsForAllIff(items, all, |rows|);
  }

  lemma {:induction false} FirstAccountsForAllIff(items: seq<Row>, all: seq<Row>, n: nat)
    requires TotalsOf(all, items) && n <= |all|
    ensures Total(all[..n]) == Total(items)
       <==> LeavesOutNothing(all[..n], items)
  {
    TotalSplit(all, n);
    PlusOnly(Total(all[..n]), Total(all[n..]));
    if Total(all[n..]) == NOTHING {
      forall g | Find(all[..n], g).None? ensures OrNothing(TotalOf(items, g)) == NOTHING {
        LeftOutGroup(items, all, n, g);
      }
    }
    if LeavesOutNothing(all[..n], items) {
      LeftOutIsNothing(items, all, n);
    }
  }

  lemma {:induction false} LeftOutGroup(items: seq<Row>, all: seq<Row>, n: nat, g: Group)
    requires TotalsOf(all, items) && n <= |all|
    requires Total(all[n..]) == NOTHING && Find(all[..n], g).None?
    ensures OrNothing(TotalOf(items, g)) == NOTHING
  {
    RestFinds(all, n, g);
    NothingInTotal(all[n..], g);
    assert Find(all, g) == TotalOf(items, g);
  }

  lemma PlusOnly(a: Volume, b: Volume)
    ensures a == Plus(a, b) <==> b == NOTHING
  {
  }

  lemma {:induction false} LeftOutIsNothing(items: seq<Row>, all: seq<Row>, n: nat)
    requires TotalsOf(all, items) && n <= |all|
    requires LeavesOutNothing(all[..n], items)
    ensures Total(all[n..]) == NOTHING
  {
    forall g ensures OrNothing(Find(all[n..], g)) == NOTHING {
      RestFinds(all, n, g);
      assert Find(all, g) == TotalOf(items, g);
    }
    RestKeyed(all, n);
    NothingUnderKeys(all[n..]);
  }

  lemma RestKeyed<K>(items: seq<Item<K>>, n: nat)
    requires Keyed(items) && n <= |items|
    ensures Keyed(items[n..])
  {
  }

  lemma BucketItemsStep(buckets: Ledger<Key, Bucket>)
    requires buckets != []
    ensures BucketItems(buckets)[0] == BucketItem(buckets[0]) && BucketItems(buckets)[1..] == BucketItems(buckets[1..])
  {
  }

  lemma SizeOfTotal<K>(items: seq<Item<K>>)
    requires items != []
    ensures Size(Total(items)) == Size(items[0].1) + Size(Total(items[1..]))
  {
  }

  /** The table a summary reads totals what the engine has stored. */
  lemma {:induction false} TableTotalIsStored(buckets: Ledger<Key, Bucket>)
    ensures Size(Total(BucketItems(buckets))) == Weigh(buckets, BucketBytes)
  {
    if buckets != [] {
      TableTotalIsStored(buckets[1..]);
      BucketItemsStep(buckets);
      SizeOfTotal(BucketItems(buckets));
    }
  }
}
