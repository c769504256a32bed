/**
 * The price table and its data-access operations (crud.py over the `Stock`
 * row of models.py). The relational store is modelled as an in-memory,
 * append-only sequence of rows owned by a `Store` object.
 */
module PriceStore {
  import opened Ascii

  /** One row of the `stocks` table: id, ticker, price, timestamp. */
  datatype Record = Record(id: nat, ticker: string, price: real, timestamp: int)

  /** Timestamps never increase along `s` (the `ORDER BY timestamp DESC` order). */
  predicate NewestFirst(s: seq<Record>) {
    forall i, j :: 0 <= i < j < |s| ==> s[i].timestamp >= s[j].timestamp
  }

  /** Timestamps never decrease along `s` (oldest first). */
  predicate OldestFirst(s: seq<Record>) {
    forall i, j :: 0 <= i < j < |s| ==> s[i].timestamp <= s[j].timestamp
  }

  function Min(a: nat, b: nat): (m: nat)
    ensures m <= a && m <= b && (m == a || m == b)
  {
    if a <= b then a else b
  }

  /**
   * The rows whose ticker equals `t` (`WHERE ticker = t`), in store order:
   * `MatchingCounts` states how often each row is kept, `MatchingAppend`
   * the order.
   */
  function Matching(rows: seq<Record>, t: string): (r: seq<Record>)
    ensures |r| <= |rows|
    ensures forall x :: x in r <==> x in rows && x.ticker == t
    ensures multiset(r) <= multiset(rows)
  {
    if rows == [] then []
    else
      assert rows == [rows[0]] + rows[1..];
      if rows[0].ticker == t then [rows[0]] + Matching(rows[1..], t)
      else Matching(rows[1..], t)
  }

  /** The filter keeps every matching row as often as it is stored, and no other row. */
  lemma {:induction false} MatchingCounts(rows: seq<Record>, t: string)
    ensures forall x :: multiset(Matching(rows, t))[x] == if x.ticker == t then multiset(rows)[x] else 0
  {
    if rows != [] {
      MatchingCounts(rows[1..], t);
      assert rows == [rows[0]] + rows[1..];
    }
  }

  /** Filtering a store that grew by one row: the new row is kept exactly when it matches. */
  lemma {:induction false} MatchingAppend(rows: seq<Record>, x: Record, t: string)
    ensures Matching(rows + [x], t) == Matching(rows, t) + (if x.ticker == t then [x] else [])
  {
    if rows == [] {
      assert rows + [x] == [x];
    } else {
      assert (rows + [x])[0] == rows[0];
      assert (rows + [x])[1..] == rows[1..] + [x];
      MatchingAppend(rows[1..], x, t);
    }
  }

  /** After appending a row with ticker `Upper(ticker)`, every query sees it last, and only the queries for that ticker do. */
  lemma AppendUpdatesQueries(rows: seq<Record>, x: Record, ticker: string)
    requires x.ticker == Upper(ticker)
    ensures forall t :: Matching(rows + [x], Upper(t)) == Matching(rows, Upper(t)) + (if Upper(t) == Upper(ticker) then [x] else [])
  {
    forall t ensures Matching(rows + [x], Upper(t)) == Matching(rows, Upper(t)) + (if Upper(t) == Upper(ticker) then [x] else []) {
      MatchingAppend(rows, x, Upper(t));
    }
  }

  /** A row no older than the head of a newest-first sequence can go in front of it. */
  lemma ConsNewestFirst(h: Record, rest: seq<Record>)
    requires NewestFirst(rest)
    requires rest != [] ==> rest[0].timestamp <= h.timestamp
    ensures NewestFirst([h] + rest)
  {
    var s := [h] + rest;
    forall i, j | 0 <= i < j < |s| ensures s[i].timestamp >= s[j].timestamp {
      if i == 0 {
        assert s[j] == rest[j - 1];
        assert rest[0].timestamp >= rest[j - 1].timestamp;
      } else {
        assert s[i] == rest[i - 1] && s[j] == rest[j - 1];
      }
    }
  }

  /** Puts `x` into a newest-first sequence, ahead of every row that is not newer. */
  function InsertNewestFirst(x: Record, s: seq<Record>): (r: seq<Record>)
    requires NewestFirst(s)
    ensures |r| == |s| + 1
    ensures NewestFirst(r)
    ensures multiset(r) == multiset(s) + multiset{x}
    ensures s == [] ==> r == [x]
    ensures s != [] ==> r[0] == x || r[0] == s[0]
  {
    if s == [] || s[0].timestamp <= x.timestamp then
      ConsNewestFirst(x, s);
      [x] + s
    else
      var rest := InsertNewestFirst(x, s[1..]);
      InsertBehindHead(x, s, rest);
      [s[0]] + rest
  }

  /** The recursive step of `InsertNewestFirst`: `x` goes behind a newer head. */
  lemma InsertBehindHead(x: Record, s: seq<Record>, rest: seq<Record>)
    requires s != [] && NewestFirst(s) && x.timestamp < s[0].timestamp
    requires NewestFirst(rest) && multiset(rest) == multiset(s[1..]) + multiset{x}
    requires s[1..] == [] ==> rest == [x]
    requires s[1..] != [] ==> rest[0] == x || rest[0] == s[1..][0]
    ensures NewestFirst([s[0]] + rest)
    ensures multiset([s[0]] + rest) == multiset(s) + multiset{x}
  {
    assert rest[0].timestamp <= s[0].timestamp;
    ConsNewestFirst(s[0], rest);
    assert s == [s[0]] + s[1..];
  }

  /** `ORDER BY timestamp DESC` over `s`; ties come out in some order. */
  function SortNewestFirst(s: seq<Record>): (r: seq<Record>)
    ensures |r| == |s|
    ensures NewestFirst(r)
    ensures multiset(r) == multiset(s)
  {
    if s == [] then []
    else
      assert s == [s[0]] + s[1..];
      InsertNewestFirst(s[0], SortNewestFirst(s[1..]))
  }

  /** Cutting a sequence at `k` splits its multiset into the kept part and the rest. */
  lemma SplitMultiset(s: seq<Record>, k: nat)
    requires k <= |s|
    ensures multiset(s) - multiset(s[..k]) == multiset(s[k..])
    ensures multiset(s[..k]) <= multiset(s)
  {
    assert s == s[..k] + s[k..];
  }

  /** In a newest-first sequence, no row after position `k` is newer than one before it. */
  lemma SuffixNoNewer(s: seq<Record>, k: nat, x: Record, y: Record)
    requires NewestFirst(s) && k <= |s|
    requires x in s[k..] && y in s[..k]
    ensures x.timestamp <= y.timestamp
  {
    var j :| 0 <= j < |s| - k && s[k..][j] == x;
    var i :| 0 <= i < k && s[..k][i] == y;
    assert s[k + j] == x && s[i] == y;
  }

  /**
   * Cutting a newest-first sequence at `k` keeps a newest-first part of it,
   * and leaves out only rows no newer than the kept ones.
   */
  lemma PrefixIsNewest(s: seq<Record>, k: nat)
    requires NewestFirst(s) && k <= |s|
    ensures NewestFirst(s[..k])
    ensures multiset(s[..k]) <= multiset(s)
    ensures k == |s| ==> s[..k] == s
    ensures forall x, y :: x in multiset(s) - multiset(s[..k]) && y in s[..k] ==> x.timestamp <= y.timestamp
  {
    SplitMultiset(s, k);
    forall x, y | x in multiset(s) - multiset(s[..k]) && y in s[..k]
      ensures x.timestamp <= y.timestamp
    {
      assert x in multiset(s[k..]);
      SuffixNoNewer(s, k, x, y);
    }
  }

  /**
   * The first `n` rows of the newest-first order of `m` are the `Min(n, |m|)`
   * newest rows of `m`, and all of `m` when `m` has no more than `n` rows.
   */
  lemma LatestPrefix(m: seq<Record>, n: nat)
    ensures var r := SortNewestFirst(m)[..Min(n, |m|)];
      && NewestFirst(r)
      && multiset(r) <= multiset(m)
      && (|m| <= n ==> multiset(r) == multiset(m))
      && (forall x, y :: x in multiset(m) - multiset(r) && y in r ==> x.timestamp <= y.timestamp)
  {
    PrefixIsNewest(SortNewestFirst(m), Min(n, |m|));
  }

  /** Every row's identity is below `next`. */
  ghost predicate IdsBelow(rows: seq<Record>, next: nat) {
    forall i :: 0 <= i < |rows| ==> rows[i].id < next
  }

  /** No two rows share an identity. */
  ghost predicate DistinctIds(rows: seq<Record>) {
    forall i, j :: 0 <= i < j < |rows| ==> rows[i].id != rows[j].id
  }

  /** Appending a row that takes the counter's identity keeps identities distinct and below the advanced counter. */
  lemma AppendFreshId(rows: seq<Record>, x: Record, next: nat)
    requires IdsBelow(rows, next) && DistinctIds(rows) && x.id == next
    ensures IdsBelow(rows + [x], next + 1) && DistinctIds(rows + [x])
    ensures forall y :: y in rows ==> y.id != x.id
  {
    var s := rows + [x];
    forall i, j | 0 <= i < j < |s| ensures s[i].id != s[j].id {
      assert s[i] == rows[i];
    }
  }

  /**
   * The price table. `rows` is every row ever inserted, in insertion order;
   * `nextId` is the identity the next insert receives.
   */
  class Store {
    var rows: seq<Record>
    var nextId: nat

    /** Every row has an identity below the counter, and no two rows share one. */
    ghost predicate Valid()
      reads this
    {
      IdsBelow(rows, nextId) && DistinctIds(rows)
    }

    /** An empty table. */
    constructor ()
      ensures Valid() && rows == []
    {
      rows := [];
      nextId := 1;
    }

    /**
     * `add_stock`: appends one row with the upper-cased ticker, the given
     * price, the caller-supplied timestamp and a fresh identity, and returns it.
     */
    method AddStock(ticker: string, price: real, now: int) returns (r: Record)
      requires Valid()
      modifies this
      ensures Valid()
      ensures r.ticker == Upper(ticker) && r.price == price && r.timestamp == now
      ensures forall x :: x in old(rows) ==> x.id != r.id
      ensures rows == old(rows) + [r]
      ensures forall t :: GetStocks(t) == old(GetStocks(t)) + (if Upper(t) == Upper(ticker) then [r] else [])
    {
      r := Record(nextId, Upper(ticker), price, now);
      ghost var before := rows;
      AppendFreshId(rows, r, nextId);
      rows := rows + [r];
      nextId := nextId + 1;
      AppendUpdatesQueries(before, r, ticker);
    }

    /**
     * `get_stocks`: exactly the stored rows whose ticker is `Upper(ticker)`,
     * each as often as it is stored, in insertion order.
     */
    function GetStocks(ticker: string): (r: seq<Record>)
      reads this
      ensures forall x :: x in r <==> x in rows && x.ticker == Upper(ticker)
      ensures multiset(r) <= multiset(rows)
      ensures forall x :: multiset(r)[x] == if x.ticker == Upper(ticker) then multiset(rows)[x] else 0
    {
      MatchingCounts(rows, Upper(ticker));
      Matching(rows, Upper(ticker))
    }

    /**
     * `get_stocks_latest_n`: at most `n` of the rows for `Upper(ticker)`,
     * newest first, and no row left out is newer than a row returned. When
     * fewer than `n` rows match, every one of them is returned.
     */
    function GetStocksLatestN(ticker: string, n: nat): (r: seq<Record>)
      reads this
      ensures |r| == Min(n, |GetStocks(ticker)|)
      ensures forall x :: x in r ==> x in rows && x.ticker == Upper(ticker)
      ensures NewestFirst(r)
      ensures multiset(r) <= multiset(GetStocks(ticker))
      ensures |GetStocks(ticker)| <= n ==> multiset(r) == multiset(GetStocks(ticker))
      ensures forall x, y :: x in multiset(GetStocks(ticker)) - multiset(r) && y in r ==> x.timestamp <= y.timestamp
    {
      var m := GetStocks(ticker);
      var r := SortNewestFirst(m)[..Min(n, |m|)];
      LatestPrefix(m, n);
      assert forall x :: x in r ==> x in multiset(m);
      r
    }
  }

  /** Lookup ignores case: two spellings of one ticker see the same rows. */
  lemma LookupIgnoresCase(s: Store, t1: string, t2: string)
    requires Upper(t1) == Upper(t2)
    ensures s.GetStocks(t1) == s.GetStocks(t2)
    ensures forall n: nat :: s.GetStocksLatestN(t1, n) == s.GetStocksLatestN(t2, n)
  {
  }

  /**
   * A row inserted under any spelling of a ticker is found by every spelling
   * of it, after every row found before.
   */
  lemma {:induction false} InsertedRowIsVisible(rows: seq<Record>, r: Record, t1: string, t2: string)
    requires r.ticker == Upper(t1) && Upper(t1) == Upper(t2)
    ensures Matching(rows + [r], Upper(t2)) == Matching(rows, Upper(t2)) + [r]
  {
    MatchingAppend(rows, r, Upper(t2));
  }
}
