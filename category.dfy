/** app/services/category.ts: the category table of a taxonomy meant to have two levels (not enforced).
    A category whose `pid` is "0" is a root; any other `pid` names its
    parent. Creating, updating and deleting change the table in place
    (class `Categories`); reading one category and listing the children of a
    parent are queries over the table. */
module CategoryService {
  import opened Wrappers
  import opened Types
  import opened Strings
  import opened Store
  import Constant

  /** The `pid` of a root category. */
  const ROOT: Id := "0"

  /** CategorySchema. `name` is None when an update stored a missing name
      (the driver writes `undefined` as null). */
  datatype Category = Category(
    name: Option<string>,
    pid: Id,
    updateTime: string,
    creTime: string,
    status: BaseStatus,
    articleNum: int,
    sort: int)

  /** CategoryAddCredentials: only `name` is required. */
  datatype CategoryAddCredentials = CategoryAddCredentials(
    name: string,
    pid: Option<Id>,
    status: Option<BaseStatus>,
    articleNum: Option<int>,
    sort: Option<int>)

  /** CategoryUpdateCredentials: every field may be left out. */
  datatype CategoryUpdateCredentials = CategoryUpdateCredentials(
    name: Option<string>,
    pid: Option<Id>,
    status: Option<BaseStatus>,
    articleNum: Option<int>,
    sort: Option<int>)

  /** The category table as the services keep it: a valid table, and every
      stored `pid` non-empty (both writers store `pid || "0"`). */
  ghost predicate ValidCategories(t: Table<Category>) {
    && t.Valid()
    && (forall k :: k in t.docs ==> t.docs[k].pid != "")
  }

  /** The root sentinel is never the id of a stored category. */
  lemma RootIsNoKey(t: Table<Category>)
    requires ValidCategories(t)
    ensures ROOT !in t.docs && "" !in t.docs
  {
  }

  // ---------------------------------------------------------------- getCategory

  /** getCategory(id): the record, or 500 when the id is unknown. */
  function GetCategory(t: Table<Category>, id: Id): (r: ResponseInfo<WithId<Category>>)
    ensures r.code == 200 <==> id in t.docs
    ensures id in t.docs ==> r.data == Some(WithId(id, t.docs[id]))
    ensures id !in t.docs ==> r == Fail(500, CategoryMissing)
  {
    if id in t.docs then Found(WithId(id, t.docs[id])) else Fail(500, CategoryMissing)
  }

  // --------------------------------------------------------------- categoryList

  /** In categoryList's order `a` may stand before `b`: smaller `sort` first,
      and on equal `sort` the later `updateTime` first. */
  predicate ListedBefore(a: WithId<Category>, b: WithId<Category>) {
    a.doc.sort < b.doc.sort || (a.doc.sort == b.doc.sort && !StrLess(a.doc.updateTime, b.doc.updateTime))
  }

  ghost predicate Sorted(s: seq<WithId<Category>>) {
    forall i, j :: 0 <= i < j < |s| ==> ListedBefore(s[i], s[j])
  }

  lemma ListedBeforeTotal(a: WithId<Category>, b: WithId<Category>)
    ensures ListedBefore(a, b) || ListedBefore(b, a)
  {
    if a.doc.sort == b.doc.sort && StrLess(a.doc.updateTime, b.doc.updateTime) {
      StrLessAsymmetric(a.doc.updateTime, b.doc.updateTime);
    }
  }

  lemma ListedBeforeTransitive(a: WithId<Category>, b: WithId<Category>, c: WithId<Category>)
    requires ListedBefore(a, b) && ListedBefore(b, c)
    ensures ListedBefore(a, c)
  {
    if a.doc.sort == b.doc.sort == c.doc.sort {
      var ua, ub, uc := a.doc.updateTime, b.doc.updateTime, c.doc.updateTime;
      StrLessTotal(ua, ub);
      StrLessTotal(ub, uc);
      if ua == ub && ub == uc {
        StrLessIrreflexive(ua);
      } else if ua == ub {
        StrLessAsymmetric(uc, ua);
      } else if ub == uc {
        StrLessAsymmetric(uc, ua);
      } else {
        StrLessTransitive(uc, ub, ua);
        StrLessAsymmetric(uc, ua);
      }
    }
  }

  /** `x` placed in the sorted `s` before the first element it may precede. */
  function InsertSorted(x: WithId<Category>, s: seq<WithId<Category>>): (r: seq<WithId<Category>>)
    requires Sorted(s)
    ensures Sorted(r)
    ensures multiset(r) == multiset(s) + multiset{x}
    decreases |s|
  {
    if s == [] then [x]
    else if ListedBefore(x, s[0]) then
      SortedCons(x, s);
      [x] + s
    else
      var rest := InsertSorted(x, s[1..]);
      assert s == [s[0]] + s[1..];
      ListedBeforeTotal(x, s[0]);
      assert forall y :: y in rest ==> y == x || y in s[1..] by {
        forall y | y in rest ensures y == x || y in s[1..] {
          assert y in multiset(rest);
        }
      }
      SortedHead(s[0], rest, x, s[1..]);
      [s[0]] + rest
  }

  /** Helper for InsertSorted: `x` may precede the head of the sorted `s`,
      hence all of it. */
  lemma SortedCons(x: WithId<Category>, s: seq<WithId<Category>>)
    requires Sorted(s) && s != [] && ListedBefore(x, s[0])
    ensures Sorted([x] + s)
  {
    forall i, j | 0 <= i < j < |[x] + s| ensures ListedBefore(([x] + s)[i], ([x] + s)[j]) {
      if i == 0 && j > 1 {
        ListedBeforeTransitive(x, s[0], s[j - 1]);
      }
    }
  }

  /** Helper for InsertSorted: a head that may precede `x` and every element
      of `tail` may precede every element of `rest`. */
  lemma SortedHead(h: WithId<Category>, rest: seq<WithId<Category>>, x: WithId<Category>, tail: seq<WithId<Category>>)
    requires Sorted(rest) && Sorted([h] + tail) && ListedBefore(h, x)
    requires forall y :: y in rest ==> y == x || y in tail
    ensures Sorted([h] + rest)
  {
    forall i, j | 0 <= i < j < |[h] + rest| ensures ListedBefore(([h] + rest)[i], ([h] + rest)[j]) {
      if i == 0 {
        var y := rest[j - 1];
        assert ([h] + rest)[0] == h && ([h] + rest)[j] == y;
        assert y in rest;
        if y != x {
          var k :| 0 <= k < |tail| && tail[k] == y;
          assert ([h] + tail)[0] == h && ([h] + tail)[k + 1] == y;
        }
      } else {
        assert ([h] + rest)[i] == rest[i - 1] && ([h] + rest)[j] == rest[j - 1];
      }
    }
  }

  /** `.sort({sort: 1, updateTime: -1})`: a sorted permutation of `s`. */
  function SortCategories(s: seq<WithId<Category>>): (r: seq<WithId<Category>>)
    ensures Sorted(r)
    ensures multiset(r) == multiset(s)
    decreases |s|
  {
    if s == [] then []
    else
      assert s == [s[0]] + s[1..];
      InsertSorted(s[0], SortCategories(s[1..]))
  }

  /** `find({pid: key})`: the direct children of `key` in natural order. */
  function ChildrenOf(t: Table<Category>, key: Id): (r: seq<WithId<Category>>)
    ensures forall x :: x in r ==> x.id in t.docs && x.doc == t.docs[x.id] && x.doc.pid == key
    ensures t.Valid() ==> forall k :: k in t.docs && t.docs[k].pid == key ==> WithId(k, t.docs[k]) in r
  {
    t.Find((c: Category) => c.pid == key)
  }

  /** The category `id` has at least one direct child. */
  predicate HasChild(t: Table<Category>, id: Id) {
    exists k :: k in t.docs && t.docs[k].pid == id
  }

  /** categoryList(pid): exactly the categories whose `pid` is `pid || "0"`,
      each once, ordered by `sort` ascending and then `updateTime` descending. */
  function CategoryList(t: Table<Category>, pid: Option<Id>): (r: ResponseInfo<seq<WithId<Category>>>)
    ensures r.code == 200 && r.msg.None? && r.data.Some?
    ensures Sorted(r.data.value)
    ensures multiset(r.data.value) == multiset(ChildrenOf(t, StrOr(pid, ROOT)))
    ensures forall x :: x in r.data.value ==> x.id in t.docs && x.doc == t.docs[x.id] && x.doc.pid == StrOr(pid, ROOT)
    ensures t.Valid() ==> forall k :: k in t.docs && t.docs[k].pid == StrOr(pid, ROOT) ==> WithId(k, t.docs[k]) in r.data.value
  {
    var children := ChildrenOf(t, StrOr(pid, ROOT));
    var sorted := SortCategories(children);
    assert forall x :: x in sorted ==> x in children by {
      forall x | x in sorted ensures x in children {
        assert x in multiset(sorted);
      }
    }
    assert forall x :: x in children ==> x in sorted by {
      forall x | x in children ensures x in sorted {
        assert x in multiset(children);
      }
    }
    Found(sorted)
  }

  /** The listing of a parent is empty exactly when it has no child. */
  lemma {:induction false} CategoryListEmpty(t: Table<Category>, id: Id)
    requires t.Valid() && id != ""
    ensures |CategoryList(t, Some(id)).data.value| > 0 <==> HasChild(t, id)
  {
    var list := CategoryList(t, Some(id)).data.value;
    if HasChild(t, id) {
      var k :| k in t.docs && t.docs[k].pid == id;
      assert WithId(k, t.docs[k]) in list;
    }
    if |list| > 0 {
      assert list[0] in list;
    }
  }

  // ---------------------------------------------------------------- addCategory

  /** `findOne(data)`: `c` agrees with every field the request supplies. */
  predicate SameFields(c: Category, data: CategoryAddCredentials) {
    && c.name == Some(data.name)
    && (data.pid.Some? ==> c.pid == data.pid.value)
    && (data.status.Some? ==> c.status == data.status.value)
    && (data.articleNum.Some? ==> c.articleNum == data.articleNum.value)
    && (data.sort.Some? ==> c.sort == data.sort.value)
  }

  /** Some stored category matches the whole request. */
  predicate Duplicate(t: Table<Category>, data: CategoryAddCredentials) {
    exists k :: k in t.docs && SameFields(t.docs[k], data)
  }

  /** Sending addCategory the same request again is a duplicate of the
      category it stored exactly when no field of the request was replaced
      by a default or a fixed value: an empty `pid` (stored as "0"), a `sort`
      of 0 (stored as DefaultSort), a `status` other than 1 or a counter
      other than 0 make the whole-document query miss the stored record. */
  lemma ResubmissionIsDuplicate(t: Table<Category>, k: Id, data: CategoryAddCredentials, now: string)
    requires k in t.docs && t.docs[k] == NewCategory(data, now)
    ensures SameFields(t.docs[k], data) <==>
      && data.pid != Some("") && data.sort != Some(0)
      && (data.status.None? || data.status == Some(1))
      && (data.articleNum.None? || data.articleNum == Some(0))
    ensures SameFields(t.docs[k], data) ==> Duplicate(t, data)
  {
  }

  /** The record addCategory stores: `pid` defaults to "0", `sort` to
      DefaultSort, the counter starts at 0 and the status at 1 (enabled). */
  function NewCategory(data: CategoryAddCredentials, now: string): (c: Category)
    ensures c.name == Some(data.name) && c.creTime == now && c.updateTime == now
    ensures !TruthyStr(data.pid) ==> c.pid == ROOT
    ensures TruthyStr(data.pid) ==> c.pid == data.pid.value
    ensures c.articleNum == 0 && c.status == 1
    ensures !TruthyNum(data.sort) ==> c.sort == Constant.DefaultSort
    ensures TruthyNum(data.sort) ==> c.sort == data.sort.value
    ensures c.pid != ""
  {
    Category(Some(data.name), StrOr(data.pid, ROOT), now, now, 1, 0, NumOr(data.sort, Constant.DefaultSort))
  }

  // ------------------------------------------------------------- updateCategory

  /** Why updateCategory stops before writing, if it does: an unknown id; the
      record's duplicate query (on the misspelled field `nam`, together with
      a top-level `$not`) reporting a hit, which this model takes as the
      given `nameQueryHit`; a `pid` equal to the id itself; or a `pid` that
      does not resolve. A falsy `pid` skips both parent checks. */
  function UpdateRejection(t: Table<Category>, id: Id, data: CategoryUpdateCredentials, nameQueryHit: bool): (m: Option<Msg>)
    ensures id !in t.docs ==> m == Some(CategoryMissing)
    ensures id in t.docs && TruthyStr(data.pid) && data.pid.value == id && !nameQueryHit ==> m == Some(SelfParent)
    ensures id in t.docs && !nameQueryHit && TruthyStr(data.pid) && data.pid.value != id && data.pid.value !in t.docs
      ==> m == Some(ParentMissing)
    ensures m.None? <==> id in t.docs && !nameQueryHit && (TruthyStr(data.pid) ==> data.pid.value != id && data.pid.value in t.docs)
  {
    if id !in t.docs then Some(CategoryMissing)
    else if nameQueryHit then Some(CategoryNameTaken)
    else if TruthyStr(data.pid) && data.pid.value == id then Some(SelfParent)
    else if TruthyStr(data.pid) && data.pid.value !in t.docs then Some(ParentMissing)
    else None
  }

  /** The record updateCategory writes over `c`: the name as given (a missing
      one is stored as null), `pid` defaulting to "0", `sort` to DefaultSort,
      a falsy status to 1 (so 0 is never stored), and a falsy counter keeping
      the previous value. */
  function Updated(c: Category, data: CategoryUpdateCredentials, now: string): (u: Category)
    ensures u.name == data.name && u.creTime == c.creTime && u.updateTime == now
    ensures !TruthyStr(data.pid) ==> u.pid == ROOT
    ensures TruthyStr(data.pid) ==> u.pid == data.pid.value
    ensures u.pid != ""
    ensures !TruthyNum(data.sort) ==> u.sort == Constant.DefaultSort
    ensures TruthyNum(data.sort) ==> u.sort == data.sort.value
    ensures !TruthyNum(data.status) ==> u.status == 1
    ensures TruthyNum(data.status) ==> u.status == data.status.value
    ensures !TruthyNum(data.articleNum) ==> u.articleNum == c.articleNum
    ensures TruthyNum(data.articleNum) ==> u.articleNum == data.articleNum.value
  {
    var status: BaseStatus := if TruthyNum(data.status) then data.status.value else 1;
    Category(data.name, StrOr(data.pid, ROOT), now, c.creTime, status,
             NumOr(data.articleNum, c.articleNum), NumOr(data.sort, Constant.DefaultSort))
  }

  // -------------------------------------------------------------- addArticleNum

  /** The parent chain from `id` reaches a root or an unknown id within `n`
      hops. The source recurses without a bound; this is its termination
      condition. */
  ghost predicate ChainEnds(t: Table<Category>, id: Id, n: nat)
    decreases n
  {
    id !in t.docs || t.docs[id].pid == ROOT || (n > 0 && ChainEnds(t, t.docs[id].pid, n - 1))
  }

  /** Two tables with the same keys and the same parent links. */
  ghost predicate SameLinks(t: Table<Category>, u: Table<Category>) {
    && t.docs.Keys == u.docs.Keys
    && forall k :: k in t.docs ==> t.docs[k].pid == u.docs[k].pid
  }

  lemma {:induction false} ChainEndsKept(t: Table<Category>, u: Table<Category>, id: Id, n: nat)
    requires SameLinks(t, u) && ChainEnds(t, id, n)
    ensures ChainEnds(u, id, n)
    decreases n
  {
    if id in t.docs && t.docs[id].pid != ROOT {
      ChainEndsKept(t, u, t.docs[id].pid, n - 1);
    }
  }

  /** The patch addArticleNum hands to updateCategory: the record spread back
      (`...info.data`, which carries `pid`, "0" for a root) with the counter
      raised by one. */
  function IncrementPatch(c: Category): (p: CategoryUpdateCredentials)
    ensures p.pid == Some(c.pid) && p.articleNum == Some(c.articleNum + 1)
  {
    CategoryUpdateCredentials(c.name, Some(c.pid), Some(c.status), Some(c.articleNum + 1), Some(c.sort))
  }

  /** The corrected patch: a root's "0" is left out, so that updateCategory
      does not try to resolve "0" as a parent. */
  function IncrementPatchFixed(c: Category): (p: CategoryUpdateCredentials)
    ensures c.pid == ROOT ==> p.pid.None?
    ensures c.pid != ROOT ==> p.pid == Some(c.pid)
    ensures p.articleNum == Some(c.articleNum + 1)
  {
    var pid := if c.pid == ROOT then None else Some(c.pid);
    CategoryUpdateCredentials(c.name, pid, Some(c.status), Some(c.articleNum + 1), Some(c.sort))
  }

  /** One level of addArticleNum: the update of `id` with `patch`, or no
      change when updateCategory rejects it (its reply is not looked at). */
  function IncrementStep(t: Table<Category>, id: Id, patch: CategoryUpdateCredentials, now: string, hit: bool): (u: Table<Category>)
    requires id in t.docs
    ensures UpdateRejection(t, id, patch, hit).Some? ==> u == t
    ensures UpdateRejection(t, id, patch, hit).None? ==> u == t.Put(id, Updated(t.docs[id], patch, now))
  {
    if UpdateRejection(t, id, patch, hit).None? then t.Put(id, Updated(t.docs[id], patch, now)) else t
  }

  /** A step whose patch carries the record's own `pid` (or none, for a root)
      keeps every parent link. */
  lemma StepKeepsLinks(t: Table<Category>, id: Id, patch: CategoryUpdateCredentials, now: string, hit: bool)
    requires ValidCategories(t) && id in t.docs
    requires patch.pid == Some(t.docs[id].pid) || (patch.pid.None? && t.docs[id].pid == ROOT)
    ensures SameLinks(t, IncrementStep(t, id, patch, now, hit))
    ensures ValidCategories(IncrementStep(t, id, patch, now, hit))
  {
  }

  /** addArticleNum(id) exactly as written, on the table: each category on
      the parent chain is sent IncrementPatch, and the chain is followed
      whatever that update answered. */
  function IncrementedAsWritten(t: Table<Category>, id: Id, now: string, hit: Id -> bool, n: nat): (u: Table<Category>)
    requires ValidCategories(t) && ChainEnds(t, id, n)
    ensures ValidCategories(u) && SameLinks(t, u)
    decreases n
  {
    if id !in t.docs then t
    else
      var c := t.docs[id];
      StepKeepsLinks(t, id, IncrementPatch(c), now, hit(id));
      var t' := IncrementStep(t, id, IncrementPatch(c), now, hit(id));
      if c.pid == ROOT then t'
      else
        ChainEndsKept(t, t', c.pid, n - 1);
        IncrementedAsWritten(t', c.pid, now, hit, n - 1)
  }

  /** addArticleNum(id) with the corrected patch. */
  function Incremented(t: Table<Category>, id: Id, now: string, hit: Id -> bool, n: nat): (u: Table<Category>)
    requires ValidCategories(t) && ChainEnds(t, id, n)
    ensures ValidCategories(u) && SameLinks(t, u)
    decreases n
  {
    if id !in t.docs then t
    else
      var c := t.docs[id];
      StepKeepsLinks(t, id, IncrementPatchFixed(c), now, hit(id));
      var t' := IncrementStep(t, id, IncrementPatchFixed(c), now, hit(id));
      if c.pid == ROOT then t'
      else
        ChainEndsKept(t, t', c.pid, n - 1);
        Incremented(t', c.pid, now, hit, n - 1)
  }

  /** As written, addArticleNum never changes a root category: its own update
      asks updateCategory to resolve the parent "0", which is no category, so
      that update is rejected; every other update touches another record. */
  lemma {:induction false} AsWrittenLeavesRootsAlone(t: Table<Category>, id: Id, now: string, hit: Id -> bool, n: nat, root: Id)
    requires ValidCategories(t) && ChainEnds(t, id, n)
    requires root in t.docs && t.docs[root].pid == ROOT
    ensures IncrementedAsWritten(t, id, now, hit, n).docs[root] == t.docs[root]
    decreases n
  {
    if id in t.docs {
      var c := t.docs[id];
      var t' := IncrementStep(t, id, IncrementPatch(c), now, hit(id));
      StepKeepsLinks(t, id, IncrementPatch(c), now, hit(id));
      if id == root {
        assert UpdateRejection(t, id, IncrementPatch(c), hit(id)).Some?;
      }
      assert t'.docs[root] == t.docs[root];
      if c.pid != ROOT {
        ChainEndsKept(t, t', c.pid, n - 1);
        AsWrittenLeavesRootsAlone(t', c.pid, now, hit, n - 1, root);
      }
    }
  }

  /** The discrepancy on the smallest taxonomy: a root R with one leaf L. As
      written, addArticleNum(L) raises L's counter and leaves R's unchanged,
      although R's count is meant to include L's articles. */
  lemma AsWrittenMissesRoot(t: Table<Category>, leaf: Id, root: Id, now: string, hit: Id -> bool)
    requires ValidCategories(t)
    requires root in t.docs && t.docs[root].pid == ROOT
    requires leaf in t.docs && t.docs[leaf].pid == root
    requires !hit(leaf) && t.docs[leaf].articleNum >= 0
    ensures ChainEnds(t, leaf, 1)
    ensures IncrementedAsWritten(t, leaf, now, hit, 1).docs[leaf].articleNum == t.docs[leaf].articleNum + 1
    ensures IncrementedAsWritten(t, leaf, now, hit, 1).docs[root].articleNum == t.docs[root].articleNum
  {
    var c := t.docs[leaf];
    assert leaf != root;
    StepKeepsLinks(t, leaf, IncrementPatch(c), now, hit(leaf));
    var t' := IncrementStep(t, leaf, IncrementPatch(c), now, hit(leaf));
    assert t'.docs[leaf].articleNum == c.articleNum + 1;
    assert t'.docs[root] == t.docs[root];
    ChainEndsKept(t, t', root, 0);
    AsWrittenLeavesRootsAlone(t', root, now, hit, 0, root);
  }

  /** With the corrected patch, adding an article's count at a leaf L under a
      root R raises both counters by exactly one and changes no other
      category. */
  lemma IncrementRaisesLeafAndRoot(t: Table<Category>, leaf: Id, root: Id, now: string, hit: Id -> bool)
    requires ValidCategories(t)
    requires root in t.docs && t.docs[root].pid == ROOT
    requires leaf in t.docs && t.docs[leaf].pid == root
    requires !hit(leaf) && !hit(root)
    requires t.docs[leaf].articleNum >= 0 && t.docs[root].articleNum >= 0
    ensures ChainEnds(t, leaf, 1)
    ensures var u := Incremented(t, leaf, now, hit, 1);
      && u.docs[leaf].articleNum == t.docs[leaf].articleNum + 1
      && u.docs[root].articleNum == t.docs[root].articleNum + 1
      && forall k :: k in t.docs && k != leaf && k != root ==> u.docs[k] == t.docs[k]
  {
    var c := t.docs[leaf];
    assert leaf != root;
    StepKeepsLinks(t, leaf, IncrementPatchFixed(c), now, hit(leaf));
    var t' := IncrementStep(t, leaf, IncrementPatchFixed(c), now, hit(leaf));
    assert t'.docs[leaf].articleNum == c.articleNum + 1;
    assert t'.docs[root] == t.docs[root];
    var r := t'.docs[root];
    StepKeepsLinks(t', root, IncrementPatchFixed(r), now, hit(root));
    var t'' := IncrementStep(t', root, IncrementPatchFixed(r), now, hit(root));
    assert t''.docs[root].articleNum == r.articleNum + 1;
    ChainEndsKept(t, t', root, 0);
    assert Incremented(t, leaf, now, hit, 1) == Incremented(t', root, now, hit, 0);
    assert Incremented(t', root, now, hit, 0) == t'';
  }

  /** With the corrected patch, a root is raised exactly once and nothing
      else changes. */
  lemma IncrementRootOnce(t: Table<Category>, root: Id, now: string, hit: Id -> bool)
    requires ValidCategories(t)
    requires root in t.docs && t.docs[root].pid == ROOT
    requires !hit(root) && t.docs[root].articleNum >= 0
    ensures ChainEnds(t, root, 0)
    ensures var u := Incremented(t, root, now, hit, 0);
      && u.docs[root].articleNum == t.docs[root].articleNum + 1
      && forall k :: k in t.docs && k != root ==> u.docs[k] == t.docs[k]
  {
  }

  /** The categories addArticleNum visits from `id`, in order: `id` itself,
      then its parent, and so on, up to a root or an unknown parent. */
  ghost function Chain(t: Table<Category>, id: Id, n: nat): (ch: seq<Id>)
    requires ChainEnds(t, id, n)
    ensures forall k :: k in ch ==> k in t.docs
    ensures id in t.docs <==> ch != []
    decreases n
  {
    if id !in t.docs then []
    else if t.docs[id].pid == ROOT then [id]
    else [id] + Chain(t, t.docs[id].pid, n - 1)
  }

  /** The visited categories do not depend on the bound chosen for the
      chain's length. */
  lemma {:induction false} ChainAnyBound(t: Table<Category>, id: Id, n: nat, m: nat)
    requires ChainEnds(t, id, n) && ChainEnds(t, id, m)
    ensures Chain(t, id, n) == Chain(t, id, m)
    decreases n
  {
    if id in t.docs && t.docs[id].pid != ROOT {
      ChainAnyBound(t, t.docs[id].pid, n - 1, m - 1);
    }
  }

  /** Tables with the same parent links visit the same categories. */
  lemma {:induction false} ChainKept(t: Table<Category>, u: Table<Category>, id: Id, n: nat)
    requires SameLinks(t, u) && ChainEnds(t, id, n)
    ensures ChainEnds(u, id, n) && Chain(u, id, n) == Chain(t, id, n)
    decreases n
  {
    ChainEndsKept(t, u, id, n);
    if id in t.docs && t.docs[id].pid != ROOT {
      ChainKept(t, u, t.docs[id].pid, n - 1);
    }
  }

  /** One hop of the chain: a stored non-root category is followed by the
      chain of its parent, within one hop less. */
  lemma ChainStep(t: Table<Category>, id: Id, n: nat)
    requires ChainEnds(t, id, n) && id in t.docs && t.docs[id].pid != ROOT
    ensures n > 0 && ChainEnds(t, t.docs[id].pid, n - 1)
    ensures Chain(t, id, n) == [id] + Chain(t, t.docs[id].pid, n - 1)
  {
  }

  /** Every category on a chain starts a chain of its own that is no longer,
      within a bound no larger; `m` is that bound. */
  lemma {:induction false} ChainFrom(t: Table<Category>, id: Id, n: nat, k: Id) returns (m: nat)
    requires ChainEnds(t, id, n) && k in Chain(t, id, n)
    ensures m <= n && ChainEnds(t, k, m) && |Chain(t, k, m)| <= |Chain(t, id, n)|
    decreases n
  {
    if k == id {
      m := n;
    } else {
      ChainStep(t, id, n);
      m := ChainFrom(t, t.docs[id].pid, n - 1, k);
    }
  }

  /** A chain that ends visits no category twice: coming back to `id` would
      make the chain from `id` shorter than itself. */
  lemma {:induction false} ChainDistinct(t: Table<Category>, id: Id, n: nat)
    requires ChainEnds(t, id, n)
    ensures Distinct(Chain(t, id, n))
    decreases n
  {
    if id in t.docs && t.docs[id].pid != ROOT {
      var p := t.docs[id].pid;
      ChainStep(t, id, n);
      var rest := Chain(t, p, n - 1);
      ChainDistinct(t, p, n - 1);
      if id in rest {
        var m := ChainFrom(t, p, n - 1, id);
        ChainAnyBound(t, id, n, m);
        assert false;
      }
      DistinctCons(id, rest);
    }
  }

  /** The effect of a climb over the categories `ch`, from `t` to `u`: the
      same keys; a category off the chain or not in `accepted` is unchanged;
      an accepted one on the chain gains exactly one article (unless the
      raised value is the falsy 0, which updateCategory does not store). */
  ghost predicate RaisedOnce(t: Table<Category>, u: Table<Category>, ch: seq<Id>, accepted: set<Id>) {
    && t.docs.Keys == u.docs.Keys
    && (forall k :: k in t.docs && (k !in ch || k !in accepted) ==> u.docs[k] == t.docs[k])
    && (forall k :: k in t.docs && k in ch && k in accepted && t.docs[k].articleNum != -1 ==>
          u.docs[k].articleNum == t.docs[k].articleNum + 1)
  }

  /** The categories whose corrected patch updateCategory accepts: the
      duplicate query misses, and the category is a root (no parent is sent)
      or its parent is stored. */
  ghost function AcceptsFixed(t: Table<Category>, hit: Id -> bool): (s: set<Id>)
    ensures forall k :: k in s <==> k in t.docs && !hit(k) && (t.docs[k].pid == ROOT || t.docs[k].pid in t.docs)
  {
    set k | k in t.docs && !hit(k) && (t.docs[k].pid == ROOT || t.docs[k].pid in t.docs)
  }

  /** The categories whose as-written patch updateCategory accepts: the
      duplicate query misses and the parent it is sent ("0" for a root) is
      stored. */
  ghost function AcceptsAsWritten(t: Table<Category>, hit: Id -> bool): (s: set<Id>)
    ensures forall k :: k in s <==> k in t.docs && !hit(k) && t.docs[k].pid in t.docs
  {
    set k | k in t.docs && !hit(k) && t.docs[k].pid in t.docs
  }

  /** One step of the climb has the effect of a one-category climb. */
  lemma StepRaised(t: Table<Category>, id: Id, patch: CategoryUpdateCredentials, now: string, hit: bool, accepted: set<Id>)
    requires ValidCategories(t) && id in t.docs && patch.articleNum == Some(t.docs[id].articleNum + 1)
    requires UpdateRejection(t, id, patch, hit).None? <==> id in accepted
    ensures RaisedOnce(t, IncrementStep(t, id, patch, now, hit), [id], accepted)
  {
  }

  /** updateCategory accepts the corrected patch exactly for the categories
      of AcceptsFixed, unless the category is its own parent. */
  lemma FixedPatchAccepted(t: Table<Category>, id: Id, hit: bool, hits: Id -> bool)
    requires ValidCategories(t) && id in t.docs && t.docs[id].pid != id && hit == hits(id)
    ensures UpdateRejection(t, id, IncrementPatchFixed(t.docs[id]), hit).None? <==> id in AcceptsFixed(t, hits)
  {
    RootIsNoKey(t);
  }

  /** updateCategory accepts the as-written patch exactly for the categories
      of AcceptsAsWritten, unless the category is its own parent. */
  lemma AsWrittenPatchAccepted(t: Table<Category>, id: Id, hit: bool, hits: Id -> bool)
    requires ValidCategories(t) && id in t.docs && t.docs[id].pid != id && hit == hits(id)
    ensures UpdateRejection(t, id, IncrementPatch(t.docs[id]), hit).None? <==> id in AcceptsAsWritten(t, hits)
  {
    RootIsNoKey(t);
  }

  /** A step at `id` followed by a climb over `rest`, which does not revisit
      `id`, is a climb over `[id] + rest`. */
  lemma ComposeRaised(t: Table<Category>, t': Table<Category>, u: Table<Category>, id: Id, rest: seq<Id>, accepted: set<Id>)
    requires id in t.docs && id !in rest
    requires RaisedOnce(t, t', [id], accepted) && RaisedOnce(t', u, rest, accepted)
    ensures RaisedOnce(t, u, [id] + rest, accepted)
  {
    forall k | k in t.docs && k in [id] + rest && k in accepted && t.docs[k].articleNum != -1
      ensures u.docs[k].articleNum == t.docs[k].articleNum + 1
    {
      if k == id {
        assert u.docs[k] == t'.docs[k];
      } else {
        assert k in rest && t'.docs[k] == t.docs[k];
      }
    }
  }

  /** The corrected climb at any depth: every category on the chain whose
      update is accepted gains exactly one article, and every other
      category, on the chain or off it, is unchanged. */
  lemma {:induction false} IncrementRaisesChain(t: Table<Category>, id: Id, now: string, hit: Id -> bool, n: nat)
    requires ValidCategories(t) && ChainEnds(t, id, n)
    ensures RaisedOnce(t, Incremented(t, id, now, hit, n), Chain(t, id, n), AcceptsFixed(t, hit))
    decreases n
  {
    if id in t.docs {
      var c := t.docs[id];
      var patch := IncrementPatchFixed(c);
      var accepted := AcceptsFixed(t, hit);
      ChainDistinct(t, id, n);
      StepKeepsLinks(t, id, patch, now, hit(id));
      var t' := IncrementStep(t, id, patch, now, hit(id));
      if c.pid != ROOT {
        var p := c.pid;
        ChainStep(t, id, n);
        var rest := Chain(t, p, n - 1);
        DistinctCons(id, rest);
        if p in t.docs {
          assert rest[0] == p;
        }
        FixedPatchAccepted(t, id, hit(id), hit);
        StepRaised(t, id, patch, now, hit(id), accepted);
        ChainKept(t, t', p, n - 1);
        assert AcceptsFixed(t', hit) == accepted;
        IncrementRaisesChain(t', p, now, hit, n - 1);
        assert Incremented(t, id, now, hit, n) == Incremented(t', p, now, hit, n - 1);
        ComposeRaised(t, t', Incremented(t', p, now, hit, n - 1), id, rest, accepted);
      } else {
        FixedPatchAccepted(t, id, hit(id), hit);
        StepRaised(t, id, patch, now, hit(id), accepted);
      }
    }
  }

  /** The climb as written at any depth: the same, except that only a
      category whose parent is stored is accepted, so no root changes. */
  lemma {:induction false} AsWrittenRaisesChain(t: Table<Category>, id: Id, now: string, hit: Id -> bool, n: nat)
    requires ValidCategories(t) && ChainEnds(t, id, n)
    ensures RaisedOnce(t, IncrementedAsWritten(t, id, now, hit, n), Chain(t, id, n), AcceptsAsWritten(t, hit))
    decreases n
  {
    if id in t.docs {
      var c := t.docs[id];
      var patch := IncrementPatch(c);
      var accepted := AcceptsAsWritten(t, hit);
      ChainDistinct(t, id, n);
      StepKeepsLinks(t, id, patch, now, hit(id));
      var t' := IncrementStep(t, id, patch, now, hit(id));
      if c.pid != ROOT {
        var p := c.pid;
        ChainStep(t, id, n);
        var rest := Chain(t, p, n - 1);
        DistinctCons(id, rest);
        if p in t.docs {
          assert rest[0] == p;
        }
        AsWrittenPatchAccepted(t, id, hit(id), hit);
        StepRaised(t, id, patch, now, hit(id), accepted);
        ChainKept(t, t', p, n - 1);
        assert AcceptsAsWritten(t', hit) == accepted;
        AsWrittenRaisesChain(t', p, now, hit, n - 1);
        assert IncrementedAsWritten(t, id, now, hit, n) == IncrementedAsWritten(t', p, now, hit, n - 1);
        ComposeRaised(t, t', IncrementedAsWritten(t', p, now, hit, n - 1), id, rest, accepted);
      } else {
        AsWrittenPatchAccepted(t, id, hit(id), hit);
        StepRaised(t, id, patch, now, hit(id), accepted);
      }
    }
  }

  // ------------------------------------------------------------ parent cycles

  /** With only the parent links changed at `id`, a chain that does not
      pass through `id` still ends where it did. */
  lemma {:induction false} RelinkParentChain(t: Table<Category>, u: Table<Category>, id: Id, p: Id, m: nat)
    requires t.docs.Keys == u.docs.Keys
    requires forall j :: j in t.docs && j != id ==> u.docs[j].pid == t.docs[j].pid
    requires ChainEnds(t, p, m) && id !in Chain(t, p, m)
    ensures ChainEnds(u, p, m)
    decreases m
  {
    if p in t.docs && t.docs[p].pid != ROOT {
      ChainStep(t, p, m);
      RelinkParentChain(t, u, id, t.docs[p].pid, m - 1);
    }
  }

  /** A chain that ends within `a` hops ends within any larger bound. */
  lemma {:induction false} ChainEndsMono(t: Table<Category>, id: Id, a: nat, b: nat)
    requires ChainEnds(t, id, a) && a <= b
    ensures ChainEnds(t, id, b)
    decreases a
  {
    if id in t.docs && t.docs[id].pid != ROOT {
      ChainEndsMono(t, t.docs[id].pid, a - 1, b - 1);
    }
  }

  /** Once the relinked category's own chain ends within `m + 1` hops, every
      chain that ended within `n` hops ends within `n + m + 1`. */
  lemma {:induction false} RelinkKeepsChains(t: Table<Category>, u: Table<Category>, id: Id, m: nat, k: Id, n: nat)
    requires t.docs.Keys == u.docs.Keys
    requires forall j :: j in t.docs && j != id ==> u.docs[j].pid == t.docs[j].pid
    requires ChainEnds(u, id, m + 1) && ChainEnds(t, k, n)
    ensures ChainEnds(u, k, n + m + 1)
    decreases n
  {
    if k == id {
      ChainEndsMono(u, id, m + 1, n + m + 1);
    } else if k in t.docs && t.docs[k].pid != ROOT {
      RelinkKeepsChains(t, u, id, m, t.docs[k].pid, n - 1);
    }
  }

  /** A cycle of two categories never ends, from either of them. */
  lemma {:induction false} CycleNeverEnds(u: Table<Category>, a: Id, b: Id, n: nat)
    requires a in u.docs && b in u.docs && a != ROOT && b != ROOT
    requires u.docs[a].pid == b && u.docs[b].pid == a
    ensures !ChainEnds(u, a, n) && !ChainEnds(u, b, n)
    decreases n
  {
    if n > 0 {
      CycleNeverEnds(u, a, b, n - 1);
    }
  }

  /** As written, updateCategory refuses a parent only when it is the id
      itself. Pointing a category `a` at its own child `b` is accepted, the
      table stays valid, and afterwards the chain from `a` never ends, so
      addArticleNum(a) never returns. */
  lemma TwoCycleAccepted(t: Table<Category>, a: Id, b: Id, data: CategoryUpdateCredentials, now: string)
    requires ValidCategories(t) && a in t.docs && b in t.docs && a != b
    requires t.docs[b].pid == a && data.pid == Some(b)
    ensures UpdateRejection(t, a, data, false).None?
    ensures ValidCategories(t.Put(a, Updated(t.docs[a], data, now)))
    ensures forall n: nat :: !ChainEnds(t.Put(a, Updated(t.docs[a], data, now)), a, n)
  {
    RootIsNoKey(t);
    var u := t.Put(a, Updated(t.docs[a], data, now));
    forall n: nat
      ensures !ChainEnds(u, a, n)
    {
      CycleNeverEnds(u, a, b, n);
    }
  }

  /** The guard the design intends for updateCategory: the refusals as
      written, and also a parent whose chain (which ends within `m` hops)
      reaches `id`, which covers the parent being `id` itself. */
  ghost function UpdateRejectionFixed(t: Table<Category>, id: Id, data: CategoryUpdateCredentials, nameQueryHit: bool, m: nat): (r: Option<Msg>)
    requires TruthyStr(data.pid) ==> ChainEnds(t, data.pid.value, m)
    ensures UpdateRejection(t, id, data, nameQueryHit).Some? ==> r == UpdateRejection(t, id, data, nameQueryHit)
    ensures r.None? ==> id in t.docs && UpdateRejection(t, id, data, nameQueryHit).None?
  {
    var r := UpdateRejection(t, id, data, nameQueryHit);
    if r.None? && TruthyStr(data.pid) && id in Chain(t, data.pid.value, m) then Some(ParentCycle) else r
  }

  /** The corrected guard refuses the two-category cycle. */
  lemma TwoCycleRefused(t: Table<Category>, a: Id, b: Id, data: CategoryUpdateCredentials, m: nat)
    requires ValidCategories(t) && a in t.docs && b in t.docs && a != b
    requires t.docs[b].pid == a && data.pid == Some(b) && ChainEnds(t, b, m)
    ensures UpdateRejectionFixed(t, a, data, false, m) == Some(ParentCycle)
  {
    RootIsNoKey(t);
    ChainStep(t, b, m);
  }

  /** With the corrected guard, an accepted update keeps every parent chain
      finite: the updated category's chain ends within `m + 1` hops, and any
      chain that ended within `n` hops still ends within `n + m + 1`. */
  lemma FixedUpdateKeepsChainsEnding(t: Table<Category>, id: Id, data: CategoryUpdateCredentials, hit: bool,
                                     now: string, m: nat, k: Id, n: nat)
    requires ValidCategories(t) && (TruthyStr(data.pid) ==> ChainEnds(t, data.pid.value, m))
    requires UpdateRejectionFixed(t, id, data, hit, m).None?
    requires ChainEnds(t, k, n)
    ensures ChainEnds(t.Put(id, Updated(t.docs[id], data, now)), id, m + 1)
    ensures ChainEnds(t.Put(id, Updated(t.docs[id], data, now)), k, n + m + 1)
  {
    RootIsNoKey(t);
    var u := t.Put(id, Updated(t.docs[id], data, now));
    if TruthyStr(data.pid) {
      var p := data.pid.value;
      assert p in t.docs && id !in Chain(t, p, m);
      RelinkParentChain(t, u, id, p, m);
      assert u.docs[id].pid == p && p != ROOT;
    } else {
      assert u.docs[id].pid == ROOT;
    }
    RelinkKeepsChains(t, u, id, m, k, n);
  }

  // ----------------------------------------------------------- the table class

  /** The category collection, changed in place by the mutating operations. */
  class Categories {
    var table: Table<Category>

    ghost predicate Valid()
      reads this
    {
      ValidCategories(table)
    }

    constructor ()
      ensures Valid() && table.docs == map[]
    {
      table := Table([], map[]);
    }

    /** addCategory(data) with generated `id` and clock reading `now`: fails
        without inserting when a stored category matches every supplied
        field, then when a truthy `pid` does not resolve; otherwise inserts
        exactly NewCategory(data, now) under `id` and returns it. */
    method AddCategory(data: CategoryAddCredentials, id: Id, now: string) returns (r: ResponseInfo<WithId<Category>>)
      requires Valid() && IsObjectId(id) && id !in table.docs
      modifies this
      ensures Valid()
      ensures Duplicate(old(table), data) ==> r == Fail(500, CategoryExists) && table == old(table)
      ensures !Duplicate(old(table), data) && TruthyStr(data.pid) && data.pid.value !in old(table).docs
        ==> r == Fail(500, ParentMissing) && table == old(table)
      ensures !Duplicate(old(table), data) && (TruthyStr(data.pid) ==> data.pid.value in old(table).docs)
        ==> table == old(table).Insert(id, NewCategory(data, now)) && r == Found(WithId(id, NewCategory(data, now)))
    {
      if Duplicate(table, data) {
        return Fail(500, CategoryExists);
      }
      if TruthyStr(data.pid) {
        var parentInfo := GetCategory(table, data.pid.value);
        if parentInfo.code != 200 {
          return Fail(parentInfo.code, ParentMissing);
        }
      }
      var result := NewCategory(data, now);
      table := table.Insert(id, result);
      r := GetCategory(table, id);
    }

    /** updateCategory(id, data): on any rejection the table is unchanged;
        otherwise only record `id` changes, to Updated(old record, data, now),
        which is returned. */
    method UpdateCategory(id: Id, data: CategoryUpdateCredentials, now: string, nameQueryHit: bool)
      returns (r: ResponseInfo<WithId<Category>>)
      requires Valid()
      modifies this
      ensures Valid()
      ensures UpdateRejection(old(table), id, data, nameQueryHit).Some? ==>
        r == Fail(500, UpdateRejection(old(table), id, data, nameQueryHit).value) && table == old(table)
      ensures UpdateRejection(old(table), id, data, nameQueryHit).None? ==>
        && table == old(table).Put(id, Updated(old(table).docs[id], data, now))
        && r == Found(WithId(id, Updated(old(table).docs[id], data, now)))
    {
      var info := GetCategory(table, id);
      if info.code != 200 {
        return info;
      }
      if nameQueryHit {
        return Fail(500, CategoryNameTaken);
      }
      if TruthyStr(data.pid) {
        if id == data.pid.value {
          return Fail(500, SelfParent);
        }
        var parentInfo := GetCategory(table, data.pid.value);
        if parentInfo.code != 200 {
          return Fail(500, ParentMissing);
        }
      }
      table := table.Put(id, Updated(info.data.value.doc, data, now));
      r := GetCategory(table, id);
    }

    /** deleteCategory(id): fails on an unknown id, and on a root that still
        has a child; otherwise removes exactly that record, whatever
        articles still name it. */
    method DeleteCategory(id: Id) returns (r: ResponseInfo<()>)
      requires Valid()
      modifies this
      ensures Valid()
      ensures id !in old(table).docs ==> r == Fail(500, CategoryMissing) && table == old(table)
      ensures id in old(table).docs && old(table).docs[id].pid == ROOT && HasChild(old(table), id)
        ==> r == Fail(500, HasChildren) && table == old(table)
      ensures id in old(table).docs && !(old(table).docs[id].pid == ROOT && HasChild(old(table), id))
        ==> r == Done() && table == old(table).Delete(id)
    {
      var info := GetCategory(table, id);
      if info.code != 200 {
        return Fail(500, CategoryMissing);
      }
      if info.data.value.doc.pid == ROOT {
        var list := CategoryList(table, Some(id));
        CategoryListEmpty(table, id);
        if |list.data.value| > 0 {
          return Fail(500, HasChildren);
        }
      }
      table := table.Delete(id);
      r := Done();
    }

    /** addArticleNum(id), with the root's "0" left out of the patch (see
        IncrementPatchFixed). Each category on the parent chain gets the
        update; a rejected update is passed over. `hit` gives the outcome of
        updateCategory's duplicate query per category; `n` bounds the chain. */
    method AddArticleNum(id: Id, now: string, hit: Id -> bool, ghost n: nat) returns (r: ResponseInfo<()>)
      requires Valid() && ChainEnds(table, id, n)
      modifies this
      ensures Valid()
      ensures table == Incremented(old(table), id, now, hit, n)
      ensures r == if id in old(table).docs then Done() else Fail(500, CategoryAbsent)
      decreases n
    {
      var info := GetCategory(table, id);
      if info.code != 200 {
        return Fail(500, CategoryAbsent);
      }
      var c := info.data.value.doc;
      ghost var before := table;
      StepKeepsLinks(table, id, IncrementPatchFixed(c), now, hit(id));
      var _ := UpdateCategory(id, IncrementPatchFixed(c), now, hit(id));
      assert table == IncrementStep(before, id, IncrementPatchFixed(c), now, hit(id));
      if c.pid != ROOT {
        ChainEndsKept(before, table, c.pid, n - 1);
        var _ := AddArticleNum(c.pid, now, hit, n - 1);
      }
      r := Done();
    }
  }
}
