/** The relational store's tables seen as finite maps, and the SQL aggregates the views use.
    An auto-increment table is a `map<Id, Row>` whose keys all lie below the table's id
    counter, so an aggregate over the ids below the counter covers the whole table. */
module Tables {

  /** Primary key of an auto-increment table (the store hands out 1, 2, 3, ...). */
  type Id = nat

  /** An instant as `timezone.now()` reports it, in seconds; a calendar day for `DateField`s. */
  type Time = int
  type Date = int

  /** Every row of `t` was given an id below the counter `next`. */
  predicate KeysBelow<T>(t: map<Id, T>, next: Id) {
    forall k :: k in t ==> k < next
  }

  /** `SUM(f(row))` over the rows whose id is below `n`. */
  function SumBelow<T>(t: map<Id, T>, n: nat, f: (Id, T) -> int): int
  {
    if n == 0 then 0
    else SumBelow(t, n - 1, f) + (if n - 1 in t then f(n - 1, t[n - 1]) else 0)
  }

  /** `COUNT(*) WHERE p(row)` over the rows whose id is below `n`. */
  function CountBelow<T>(t: map<Id, T>, n: nat, p: (Id, T) -> bool): (c: nat)
    ensures c <= n
  {
    if n == 0 then 0
    else CountBelow(t, n - 1, p) + (if n - 1 in t && p(n - 1, t[n - 1]) then 1 else 0)
  }

  /** The table `t` with `rows` inserted under the consecutive ids `start`, `start + 1`, ... */
  function InsertFrom<T>(t: map<Id, T>, start: Id, rows: seq<T>): map<Id, T>
  {
    if rows == [] then t
    else InsertFrom(t, start, rows[..|rows| - 1])[start + |rows| - 1 := rows[|rows| - 1]]
  }

  /** After the insertion the table holds the old rows outside the new ids and the i-th new row
      under `start + i`, and nothing else. */
  lemma {:induction false} InsertFromContents<T>(t: map<Id, T>, start: Id, rows: seq<T>)
    ensures var r := InsertFrom(t, start, rows);
      && (forall k :: k in r <==> k in t || start <= k < start + |rows|)
      && (forall k :: k in t && !(start <= k < start + |rows|) ==> r[k] == t[k])
      && (forall k :: start <= k < start + |rows| ==> r[k] == rows[k - start])
  {
    if rows != [] {
      InsertFromContents(t, start, rows[..|rows| - 1]);
    }
  }

  /** A sum of non-negative terms is non-negative. */
  lemma {:induction false} SumBelowNonneg<T>(t: map<Id, T>, n: nat, f: (Id, T) -> int)
    requires forall k :: k in t ==> f(k, t[k]) >= 0
    ensures SumBelow(t, n, f) >= 0
  {
    if n > 0 {
      SumBelowNonneg(t, n - 1, f);
    }
  }

  /** Pointwise smaller terms give a smaller sum. */
  lemma {:induction false} SumBelowMono<T>(t: map<Id, T>, n: nat, f: (Id, T) -> int, g: (Id, T) -> int)
    requires forall k :: k in t ==> f(k, t[k]) <= g(k, t[k])
    ensures SumBelow(t, n, f) <= SumBelow(t, n, g)
  {
    if n > 0 {
      SumBelowMono(t, n - 1, f, g);
    }
  }

  /** A sum whose every term vanishes is 0. */
  lemma {:induction false} SumBelowZero<T>(t: map<Id, T>, n: nat, f: (Id, T) -> int)
    requires forall k :: k in t && k < n ==> f(k, t[k]) == 0
    ensures SumBelow(t, n, f) == 0
  {
    if n > 0 {
      SumBelowZero(t, n - 1, f);
    }
  }

  /** The sum of pointwise sums is the sum of the sums. */
  lemma {:induction false} SumBelowAdd<T>(t: map<Id, T>, n: nat, f: (Id, T) -> int, g: (Id, T) -> int, h: (Id, T) -> int)
    requires forall k :: k in t ==> h(k, t[k]) == f(k, t[k]) + g(k, t[k])
    ensures SumBelow(t, n, h) == SumBelow(t, n, f) + SumBelow(t, n, g)
  {
    if n > 0 {
      SumBelowAdd(t, n - 1, f, g, h);
    }
  }

  /** A sum with a single non-zero term, that of the row `j`, is that term. */
  lemma {:induction false} SumBelowOne<T>(t: map<Id, T>, n: nat, j: Id, f: (Id, T) -> int)
    requires j in t && j < n
    requires forall k :: k in t && k != j ==> f(k, t[k]) == 0
    ensures SumBelow(t, n, f) == f(j, t[j])
  {
    if n - 1 == j {
      SumBelowZero(t, n - 1, f);
    } else {
      SumBelowOne(t, n - 1, j, f);
    }
  }

  /** Overwriting (or inserting) the row with id `k < n` moves the sum by the change of its term. */
  lemma {:induction false} SumBelowUpdate<T>(t: map<Id, T>, n: nat, k: Id, v: T, f: (Id, T) -> int)
    requires k < n
    ensures SumBelow(t[k := v], n, f) == SumBelow(t, n, f) - (if k in t then f(k, t[k]) else 0) + f(k, v)
  {
    if n - 1 != k {
      SumBelowUpdate(t, n - 1, k, v, f);
    } else {
      SumBelowFrame(t, t[k := v], n - 1, f);
    }
  }

  /** Two tables that agree on the ids below `n` have the same sum below `n`. */
  lemma {:induction false} SumBelowFrame<T>(t: map<Id, T>, u: map<Id, T>, n: nat, f: (Id, T) -> int)
    requires forall k :: k < n ==> (k in t <==> k in u)
    requires forall k :: k < n && k in t ==> t[k] == u[k]
    ensures SumBelow(t, n, f) == SumBelow(u, n, f)
  {
    if n > 0 {
      SumBelowFrame(t, u, n - 1, f);
    }
  }

  /** A predicate that implies another counts fewer rows. */
  lemma {:induction false} CountBelowMono<T>(t: map<Id, T>, n: nat, p: (Id, T) -> bool, q: (Id, T) -> bool)
    requires forall k :: k in t && p(k, t[k]) ==> q(k, t[k])
    ensures CountBelow(t, n, p) <= CountBelow(t, n, q)
  {
    if n > 0 {
      CountBelowMono(t, n - 1, p, q);
    }
  }

  /** A predicate that holds of no row counts nothing. */
  lemma {:induction false} CountBelowNothing<T>(t: map<Id, T>, n: nat)
    ensures CountBelow(t, n, (k: Id, v: T) => false) == 0
  {
    if n > 0 {
      CountBelowNothing(t, n - 1);
    }
  }
}
