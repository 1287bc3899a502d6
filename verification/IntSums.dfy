/** Finite sums of integers. */
module IntSums {
  /** f(0) + ... + f(n - 1) */
  function SumTo(n: nat, f: int -> int): int {
    if n == 0 then 0 else SumTo(n - 1, f) + f(n - 1)
  }

  lemma {:induction false} SumToEqual(n: nat, f: int -> int, g: int -> int)
    requires forall i :: 0 <= i < n ==> f(i) == g(i)
    ensures SumTo(n, f) == SumTo(n, g)
  {
    if n > 0 {
      SumToEqual(n - 1, f, g);
    }
  }

  lemma {:induction false} SumToZero(n: nat, f: int -> int)
    requires forall i :: 0 <= i < n ==> f(i) == 0
    ensures SumTo(n, f) == 0
  {
    if n > 0 {
      SumToZero(n - 1, f);
    }
  }

  lemma {:induction false} SumToAdd(n: nat, f: int -> int, g: int -> int)
    ensures SumTo(n, i => f(i) + g(i)) == SumTo(n, f) + SumTo(n, g)
  {
    if n > 0 {
      SumToAdd(n - 1, f, g);
    }
  }

  /** Only the summand at `p` is not zero. */
  lemma {:induction false} SumToSingle(n: nat, p: int, f: int -> int)
    requires 0 <= p < n
    requires forall i :: 0 <= i < n && i != p ==> f(i) == 0
    ensures SumTo(n, f) == f(p)
  {
    if p == n - 1 {
      SumToZero(n - 1, f);
    } else {
      SumToSingle(n - 1, p, f);
    }
  }

  lemma {:induction false} SumToSwap(n: nat, m: nat, f: (int, int) -> int)
    ensures SumTo(n, i => SumTo(m, j => f(i, j))) == SumTo(m, j => SumTo(n, i => f(i, j)))
  {
    var rows, columns := (i: int) => SumTo(m, j => f(i, j)), (j: int) => SumTo(n, i => f(i, j));
    if n == 0 {
      SumToZero(m, columns);
    } else {
      var shorter, last := (j: int) => SumTo(n - 1, i => f(i, j)), (j: int) => f(n - 1, j);
      SumToSwap(n - 1, m, f);
      SumToAdd(m, shorter, last);
      SumToEqual(m, columns, j => shorter(j) + last(j));
      assert rows(n - 1) == SumTo(m, last);
    }
  }

  /** Rows and columns of the same table have the same total. */
  lemma SumToExchange(n: nat, m: nat, f: int -> int -> int, g: int -> int -> int, rows: int -> int, columns: int -> int)
    requires forall i, j :: 0 <= i < n && 0 <= j < m ==> f(i)(j) == g(j)(i)
    requires forall i :: 0 <= i < n ==> rows(i) == SumTo(m, f(i))
    requires forall j :: 0 <= j < m ==> columns(j) == SumTo(n, g(j))
    ensures SumTo(n, rows) == SumTo(m, columns)
  {
    var at := (i: int, j: int) => f(i)(j);
    SumToSwap(n, m, at);
    forall i | 0 <= i < n
      ensures rows(i) == SumTo(m, j => at(i, j))
    {
      SumToEqual(m, f(i), j => at(i, j));
    }
    SumToEqual(n, rows, i => SumTo(m, j => at(i, j)));
    forall j | 0 <= j < m
      ensures columns(j) == SumTo(n, i => at(i, j))
    {
      SumToEqual(n, g(j), i => at(i, j));
    }
    SumToEqual(m, columns, j => SumTo(n, i => at(i, j)));
  }

  function Shifted(f: int -> int, a: int): int -> int { i => f(a + i) }

  /** A sum in two pieces. */
  lemma {:induction false} SumToSplit(a: nat, b: nat, f: int -> int)
    ensures SumTo(a + b, f) == SumTo(a, f) + SumTo(b, Shifted(f, a))
  {
    if b > 0 {
      SumToSplit(a, b - 1, f);
    }
  }

  /** A sum in blocks of `w`. */
  lemma {:induction false} SumToBlocks(blocks: nat, w: nat, perBlock: int -> int, f: int -> int)
    requires forall q :: 0 <= q < blocks ==> perBlock(q) == SumTo(w, Shifted(f, q * w))
    ensures SumTo(blocks, perBlock) == SumTo(blocks * w, f)
  {
    if blocks > 0 {
      var before := (blocks - 1) * w;
      SumToBlocks(blocks - 1, w, perBlock, f);
      LastBlock(blocks, before, w, perBlock, f);
      assert blocks * w == before + w;
    }
  }

  lemma LastBlock(blocks: nat, before: nat, w: nat, perBlock: int -> int, f: int -> int)
    requires blocks > 0 && SumTo(blocks - 1, perBlock) == SumTo(before, f) && perBlock(blocks - 1) == SumTo(w, Shifted(f, before))
    ensures SumTo(blocks, perBlock) == SumTo(before + w, f)
  {
    SumToSplit(before, w, f);
  }

  /** Summing over all positions or over all values of a key, when at most one position that
      matters has a given key. */
  lemma SumByKey(n: nat, m: nat, key: int -> int, matters: int -> bool, f: int -> int)
    requires forall j :: 0 <= j < n ==> 0 <= key(j) < m
    requires forall i, j :: 0 <= i < j < n && matters(i) && matters(j) ==> key(i) != key(j)
    requires forall c :: 0 <= c < m && (forall j :: 0 <= j < n && matters(j) ==> key(j) != c) ==> f(c) == 0
    ensures SumTo(n, j => if matters(j) then f(key(j)) else 0) == SumTo(m, f)
  {
    var at := (j: int, c: int) => if matters(j) && key(j) == c then f(c) else 0;
    var byPosition := (j: int) => SumTo(m, c => at(j, c));
    var byKey := (c: int) => SumTo(n, j => at(j, c));
    SumToSwap(n, m, at);
    forall j | 0 <= j < n
      ensures byPosition(j) == if matters(j) then f(key(j)) else 0
    {
      var row := (c: int) => at(j, c);
      SumToSingle(m, key(j), row);
    }
    SumToEqual(n, byPosition, j => if matters(j) then f(key(j)) else 0);
    forall c | 0 <= c < m
      ensures byKey(c) == f(c)
    {
      var column := (j: int) => at(j, c);
      if j :| 0 <= j < n && matters(j) && key(j) == c {
        SumToSingle(n, j, column);
      } else {
        SumToZero(n, column);
      }
    }
    SumToEqual(m, byKey, f);
  }
}
