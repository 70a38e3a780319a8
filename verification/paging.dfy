/** The list endpoints' pagination: `skip`/`take` over a newest-first ordering of the
    matching records, and `totalPages` as the integer ceiling of `total / limit`. */
module Paging {

  /** `Math.ceil(total / limit)` for a positive limit: the least number of pages of size
      `limit` that hold `total` records. */
  function CeilDiv(total: nat, limit: nat): (pages: nat)
    requires limit >= 1
    ensures (pages - 1) * limit < total <= pages * limit
  {
    var q := (total + limit - 1) / limit;
    var m := (total + limit - 1) % limit;
    assert total + limit - 1 == q * limit + m;
    q
  }

  /** The number of records before page `page`: `(page - 1) * limit`. */
  function Skip(page: int, limit: int): (skip: nat)
    requires page >= 1 && limit >= 1
    ensures skip == (page - 1) * limit
  {
    var s: int := (page - 1) * limit;
    assert s >= 0 by { NonNegativeProduct(page - 1, limit); }
    s
  }

  lemma NonNegativeProduct(a: int, b: int)
    requires a >= 0 && b >= 0
    ensures a * b >= 0
  {
  }

  /** One page of `xs`: at most `limit` elements taken from offset `Skip(page, limit)`,
      and none when the offset is at or past the end (Prisma's `skip`/`take`). */
  function Page<T>(xs: seq<T>, page: int, limit: int): (r: seq<T>)
    requires page >= 1 && limit >= 1
    ensures |r| <= limit
    ensures Skip(page, limit) >= |xs| ==> r == []
    ensures Skip(page, limit) < |xs| ==> |r| == if |xs| - Skip(page, limit) < limit then |xs| - Skip(page, limit) else limit
    ensures forall i :: 0 <= i < |r| ==> Skip(page, limit) + i < |xs| && r[i] == xs[Skip(page, limit) + i]
  {
    var skip := Skip(page, limit);
    if skip >= |xs| then []
    else if |xs| - skip < limit then xs[skip..]
    else xs[skip..skip + limit]
  }

  /** Element `i` of the ordering is shown at position `i % limit` of page `i / limit + 1`. */
  lemma PageOfIndex<T>(xs: seq<T>, limit: int, i: int)
    requires limit >= 1 && 0 <= i < |xs|
    ensures i / limit + 1 >= 1
    ensures i % limit < |Page(xs, i / limit + 1, limit)|
    ensures Page(xs, i / limit + 1, limit)[i % limit] == xs[i]
  {
    var p := i / limit + 1;
    assert i == (i / limit) * limit + i % limit;
    assert Skip(p, limit) == (i / limit) * limit;
  }

  /** `totalPages` counts exactly the non-empty pages: every page up to it holds at least one
      record, and every page after it holds none. */
  lemma TotalPagesAreTheNonEmptyPages<T>(xs: seq<T>, limit: int, page: int)
    requires limit >= 1 && page >= 1
    ensures Page(xs, page, limit) != [] <==> page <= CeilDiv(|xs|, limit)
  {
    var n := CeilDiv(|xs|, limit);
    var skip := Skip(page, limit);
    if page <= n {
      MonotoneProduct(page - 1, n - 1, limit);
      assert skip <= (n - 1) * limit;
    } else {
      MonotoneProduct(n, page - 1, limit);
      assert skip >= n * limit;
    }
  }

  lemma MonotoneProduct(a: int, b: int, c: int)
    requires 0 <= a <= b && c >= 0
    ensures a * c <= b * c
  {
  }

  /** `order` is newest-first by `created`: each key is known, and no key precedes an older one. */
  ghost predicate Descending<K>(created: map<K, int>, order: seq<K>)
  {
    && (forall i :: 0 <= i < |order| ==> order[i] in created)
    && (forall i, j :: 0 <= i < j < |order| ==> created[order[i]] >= created[order[j]])
  }

  /** `order` lists every key of `ids` exactly once, newest first: what `orderBy: { createdAt:
      'desc' }` returns (records with equal timestamps may come in any order). */
  ghost predicate NewestFirst<K>(created: map<K, int>, ids: set<K>, order: seq<K>)
  {
    Descending(created, order) && multiset(order) == multiset(ids)
  }

  /** Places `k` before the first key that is not newer than it. */
  function Insert<K>(created: map<K, int>, order: seq<K>, k: K): (r: seq<K>)
    requires k in created
    requires Descending(created, order)
    ensures multiset(r) == multiset(order) + multiset{k}
    ensures Descending(created, r)
  {
    if |order| == 0 || created[order[0]] <= created[k] then
      DescendingCons(created, k, order);
      [k] + order
    else
      var head := order[0];
      var rest := Insert(created, order[1..], k);
      assert order == [head] + order[1..];
      forall j | 0 <= j < |rest|
        ensures created[head] >= created[rest[j]]
      {
        assert rest[j] in multiset(rest);
      }
      DescendingCons(created, head, rest);
      [head] + rest
  }

  /** A key no older than anything in a newest-first ordering may be put in front of it. */
  lemma DescendingCons<K>(created: map<K, int>, k: K, order: seq<K>)
    requires k in created
    requires Descending(created, order)
    requires forall j :: 0 <= j < |order| ==> created[k] >= created[order[j]]
    ensures Descending(created, [k] + order)
  {
  }

  /** Orders the keys `ids` newest first by their creation time. */
  method NewestFirstOrder<K>(created: map<K, int>, ids: set<K>) returns (order: seq<K>)
    requires ids <= created.Keys
    ensures NewestFirst(created, ids, order)
  {
    order := [];
    var rest := ids;
    while rest != {}
      invariant rest <= ids
      invariant Descending(created, order)
      invariant multiset(order) + multiset(rest) == multiset(ids)
      decreases |rest|
    {
      var k :| k in rest;
      order := Insert(created, order, k);
      assert multiset(rest) == multiset(rest - {k}) + multiset{k};
      rest := rest - {k};
    }
  }

  /** A newest-first ordering lists exactly the keys it orders, each once. */
  lemma NewestFirstLength<K>(created: map<K, int>, ids: set<K>, order: seq<K>)
    requires NewestFirst(created, ids, order)
    ensures |order| == |ids|
    ensures forall i :: 0 <= i < |order| ==> order[i] in ids
  {
    assert |multiset(order)| == |multiset(ids)|;
    forall i | 0 <= i < |order|
      ensures order[i] in ids
    {
      assert order[i] in multiset(order);
    }
  }
}
