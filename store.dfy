/** An in-memory model of one MongoDB collection as the services use it:
    documents keyed by `_id`, found, inserted, replaced and deleted one at a
    time, plus the collection's natural order, which is the order `find()`
    returns documents in when no sort is asked for. Paging arithmetic
    (`skip`/`limit` and the page count) lives here too. */
module Store {
  import opened Wrappers

  /** A document `_id` as the services pass it around (its string form). */
  type Id = string

  /** The string form of a generated ObjectId: 24 lower-case hexadecimal
      digits. In particular it is never "" or the category sentinel "0",
      and holds no '.'. */
  predicate IsObjectId(id: Id) {
    |id| == 24 && forall i :: 0 <= i < |id| ==> id[i] in "0123456789abcdef"
  }

  /** An ObjectId string is truthy, is not the sentinel "0" and holds no '.'. */
  lemma ObjectIdShape(id: Id)
    requires IsObjectId(id)
    ensures id != "" && id != "0" && '.' !in id
  {
    forall i | 0 <= i < |id| ensures id[i] != '.' {
      assert id[i] in "0123456789abcdef";
    }
  }

  /** WithId<T> of the MongoDB driver: a document together with its `_id`. */
  datatype WithId<T> = WithId(id: Id, doc: T)

  /** No element occurs twice. */
  ghost predicate Distinct<X>(s: seq<X>) {
    forall i, j :: 0 <= i < j < |s| ==> s[i] != s[j]
  }

  /** One collection: `docs` maps each `_id` to its document, `ids` lists the
      same keys in natural (insertion) order. */
  datatype Table<T> = Table(ids: seq<Id>, docs: map<Id, T>) {

    /** The order lists every key once and nothing else, and every key is
        a generated ObjectId. */
    ghost predicate Valid() {
      && Distinct(ids)
      && (forall k :: k in ids <==> k in docs)
      && (forall k :: k in docs ==> IsObjectId(k))
    }

    /** `insertOne`: the new document goes to the end of the natural order. */
    function Insert(id: Id, doc: T): (t: Table<T>)
      requires id !in docs
      ensures Valid() && IsObjectId(id) ==> t.Valid()
      ensures t.docs.Keys == docs.Keys + {id} && t.docs[id] == doc
      ensures forall k :: k in docs ==> t.docs[k] == docs[k]
    {
      Table(ids + [id], docs[id := doc])
    }

    /** `updateOne` on an existing `_id`: the document is replaced in place. */
    function Put(id: Id, doc: T): (t: Table<T>)
      requires id in docs
      ensures Valid() ==> t.Valid()
      ensures t.docs.Keys == docs.Keys && t.docs[id] == doc
      ensures forall k :: k in docs && k != id ==> t.docs[k] == docs[k]
    {
      Table(ids, docs[id := doc])
    }

    /** `deleteOne` by `_id`. */
    function Delete(id: Id): (t: Table<T>)
      ensures Valid() ==> t.Valid()
      ensures t.docs.Keys == docs.Keys - {id}
      ensures forall k :: k in t.docs ==> t.docs[k] == docs[k]
    {
      Table(Without(ids, id), docs - {id})
    }

    /** `find(filter).toArray()`: the matching documents in natural order. */
    function Find(p: T -> bool): (r: seq<WithId<T>>)
      ensures forall x :: x in r ==> x.id in docs && x.doc == docs[x.id] && p(x.doc)
      ensures Valid() ==> forall k :: k in docs && p(docs[k]) ==> WithId(k, docs[k]) in r
      ensures Valid() ==> Distinct(r)
      ensures |r| <= |ids|
    {
      Filter(ids, docs, p)
    }
  }

  /** `ids` without `id`. */
  function Without(ids: seq<Id>, id: Id): (r: seq<Id>)
    ensures forall k :: k in r <==> k in ids && k != id
    ensures Distinct(ids) ==> Distinct(r)
  {
    if ids == [] then []
    else if ids[0] == id then Without(ids[1..], id)
    else
      var rest := Without(ids[1..], id);
      DistinctCons(ids[0], ids[1..]);
      DistinctCons(ids[0], rest);
      [ids[0]] + rest
  }

  /** A sequence with a head is distinct when its tail is and the head does
      not recur. */
  lemma DistinctCons<X>(x: X, s: seq<X>)
    ensures Distinct([x] + s) <==> x !in s && Distinct(s)
  {
    if x !in s && Distinct(s) {
      forall i, j | 0 <= i < j < |[x] + s| ensures ([x] + s)[i] != ([x] + s)[j] {
        if i > 0 { assert ([x] + s)[i] == s[i - 1]; }
        assert ([x] + s)[j] == s[j - 1];
      }
    }
    if Distinct([x] + s) {
      forall i, j | 0 <= i < j < |s| ensures s[i] != s[j] {
        assert s[i] == ([x] + s)[i + 1] && s[j] == ([x] + s)[j + 1];
      }
      forall j | 0 <= j < |s| ensures s[j] != x {
        assert ([x] + s)[0] != ([x] + s)[j + 1];
      }
    }
  }

  /** The documents of `docs` whose keys are listed in `ids` and satisfy `p`,
      in the order of `ids`. */
  function Filter<T>(ids: seq<Id>, docs: map<Id, T>, p: T -> bool): (r: seq<WithId<T>>)
    ensures forall x :: x in r ==> x.id in ids && x.id in docs && x.doc == docs[x.id] && p(x.doc)
    ensures forall k :: k in ids && k in docs && p(docs[k]) ==> WithId(k, docs[k]) in r
    ensures Distinct(ids) ==> Distinct(r)
    ensures |r| <= |ids|
  {
    if ids == [] then []
    else
      var rest := Filter(ids[1..], docs, p);
      var k := ids[0];
      if k in docs && p(docs[k]) then [WithId(k, docs[k])] + rest else rest
  }

  /** `Math.ceil(n / d)` for whole numbers. */
  function CeilDiv(n: nat, d: nat): (q: nat)
    requires d >= 1
    ensures n <= q * d
    ensures q == 0 || (q - 1) * d < n
  {
    if n % d == 0 then n / d else n / d + 1
  }

  /** `Math.ceil(count / pageSize)`; None when `pageSize` is 0, where the
      quotient is not a finite number (it is sent as null). */
  function TotalPage(count: nat, pageSize: nat): (p: Option<nat>)
    ensures p.None? <==> pageSize == 0
    ensures p.Some? ==> count <= p.value * pageSize && (p.value == 0 || (p.value - 1) * pageSize < count)
  {
    if pageSize == 0 then None else Some(CeilDiv(count, pageSize))
  }

  /** The number of documents `skip((page - 1) * pageSize)` passes over. A
      negative skip, which the MongoDB server refuses, needs page 0 and a
      non-zero page size; with page size 0 the product is (minus) zero. */
  function Skip(page: nat, pageSize: nat): (k: nat)
    requires page >= 1 || pageSize == 0
  {
    if pageSize == 0 then 0 else (page - 1) * pageSize
  }

  /** `.skip((page - 1) * pageSize).limit(pageSize)` over the results `s`;
      `limit(0)` sets no limit. */
  function Slice<X>(s: seq<X>, page: nat, pageSize: nat): (r: seq<X>)
    requires page >= 1 || pageSize == 0
    ensures pageSize == 0 ==> r == s
    ensures pageSize >= 1 ==> |r| <= pageSize
    ensures var from := if Skip(page, pageSize) <= |s| then Skip(page, pageSize) else |s|;
      && from + |r| <= |s|
      && r == s[from..from + |r|]
      && (|r| == pageSize || from + |r| == |s|)
  {
    var skip := Skip(page, pageSize);
    if pageSize == 0 then s
    else if skip >= |s| then []
    else if skip + pageSize <= |s| then s[skip..skip + pageSize]
    else s[skip..]
  }

  /** Every result has its page: the `i`-th result is entry `i % pageSize`
      of page `i / pageSize + 1`. */
  lemma SliceLocates<X>(s: seq<X>, i: nat, pageSize: nat)
    requires i < |s| && pageSize >= 1
    ensures i % pageSize < |Slice(s, i / pageSize + 1, pageSize)|
    ensures Slice(s, i / pageSize + 1, pageSize)[i % pageSize] == s[i]
  {
    var page := i / pageSize + 1;
    assert Skip(page, pageSize) == (i / pageSize) * pageSize;
    assert i == (i / pageSize) * pageSize + i % pageSize;
  }

  /** A page past the page count of a collection of `count` documents is
      empty for any result list no longer than the collection. */
  lemma PagePastEndEmpty<X>(s: seq<X>, count: nat, page: nat, pageSize: nat)
    requires |s| <= count && (page >= 1 || pageSize == 0)
    ensures pageSize >= 1 && page > TotalPage(count, pageSize).value ==> Slice(s, page, pageSize) == []
  {
    if pageSize >= 1 && page > TotalPage(count, pageSize).value {
      var q := CeilDiv(count, pageSize);
      MulMonotone(q, page - 1, pageSize);
      assert |s| <= Skip(page, pageSize);
    }
  }

  /** Helper for PagePastEndEmpty. */
  lemma MulMonotone(a: nat, b: nat, c: nat)
    requires a <= b
    ensures a * c <= b * c
  {
  }

  /** The `data` of a paged reply: one page of results, the number of pages,
      and the query echoed back (`...data`). */
  datatype PageResponse<T> = PageResponse(list: seq<WithId<T>>, totalPage: Option<nat>, page: nat, pageSize: nat, keyword: string)

  /** The page reply the paged services build: the requested page of
      `matched`, and a page count over all `count` documents. */
  function PageOf<T>(matched: seq<WithId<T>>, count: nat, page: nat, pageSize: nat, keyword: string): (r: PageResponse<T>)
    requires page >= 1 || pageSize == 0
    ensures r.list == Slice(matched, page, pageSize)
    ensures r.totalPage == TotalPage(count, pageSize)
    ensures r.page == page && r.pageSize == pageSize && r.keyword == keyword
  {
    PageResponse(Slice(matched, page, pageSize), TotalPage(count, pageSize), page, pageSize, keyword)
  }
}
