/** app/services/permission.ts: the permission table. A permission is
    identified to users by its `permissionStr`, which no two permissions
    share; adding, editing and deleting change the table in place (class
    `Permissions`), reading, paging and listing are queries. */
module PermissionService {
  import opened Wrappers
  import opened Types
  import opened Strings
  import opened Store

  /** PermissionSchema: the edit fields plus the two timestamps. */
  datatype Permission = Permission(
    permissionStr: string,
    routerLink: string,
    icon: string,
    sort: int,
    status: BaseStatus,
    creTime: string,
    updateTime: string)

  /** PermissionAddCredentials. */
  datatype PermissionAddCredentials = PermissionAddCredentials(
    permissionStr: string, routerLink: string, icon: string, sort: int)

  /** PermissionEditCredentials: the add fields and a status. */
  datatype PermissionEditCredentials = PermissionEditCredentials(
    permissionStr: string, routerLink: string, icon: string, sort: int, status: BaseStatus)

  /** PermissionPageSearch: the keyword and the page position. */
  datatype PermissionPageSearch = PermissionPageSearch(permissionStr: string, page: nat, pageSize: nat)

  /** `findOne({permissionStr})`: some permission already uses `s`. */
  predicate StrTaken(t: Table<Permission>, s: string) {
    exists k :: k in t.docs && t.docs[k].permissionStr == s
  }

  /** No two permissions share a `permissionStr`. */
  ghost predicate UniqueStrs(t: Table<Permission>) {
    forall j, k :: j in t.docs && k in t.docs && t.docs[j].permissionStr == t.docs[k].permissionStr ==> j == k
  }

  /** The record addPermission stores: the request with status 1. */
  function NewPermission(data: PermissionAddCredentials, now: string): (p: Permission)
    ensures p.permissionStr == data.permissionStr && p.routerLink == data.routerLink && p.icon == data.icon
    ensures p.sort == data.sort && p.status == 1 && p.creTime == now && p.updateTime == now
  {
    Permission(data.permissionStr, data.routerLink, data.icon, data.sort, 1, now, now)
  }

  /** The record updatePermission leaves: every edit field set, the update
      time renewed, the creation time kept. */
  function EditedPermission(p: Permission, data: PermissionEditCredentials, now: string): (e: Permission)
    ensures e.permissionStr == data.permissionStr && e.routerLink == data.routerLink && e.icon == data.icon
    ensures e.sort == data.sort && e.status == data.status
    ensures e.creTime == p.creTime && e.updateTime == now
  {
    Permission(data.permissionStr, data.routerLink, data.icon, data.sort, data.status, p.creTime, now)
  }

  /** getPermission(id): the record, or 500 when the id is unknown. */
  function GetPermission(t: Table<Permission>, id: Id): (r: ResponseInfo<WithId<Permission>>)
    ensures r.code == 200 <==> id in t.docs
    ensures id in t.docs ==> r.data == Some(WithId(id, t.docs[id]))
    ensures id !in t.docs ==> r == Fail(500, PermissionMissing)
  {
    if id in t.docs then Found(WithId(id, t.docs[id])) else Fail(500, PermissionMissing)
  }

  /** `find({permissionStr: {$regex: kw}})`, in natural order. */
  function StrLike(t: Table<Permission>, kw: string): (r: seq<WithId<Permission>>)
    ensures forall x :: x in r ==> x.id in t.docs && x.doc == t.docs[x.id] && Contains(x.doc.permissionStr, kw)
    ensures t.Valid() ==> forall k :: k in t.docs && Contains(t.docs[k].permissionStr, kw) ==> WithId(k, t.docs[k]) in r
    ensures |r| <= |t.ids|
  {
    t.Find((p: Permission) => Contains(p.permissionStr, kw))
  }

  /** page(search): the requested page of the matching permissions, a page
      count taken over all permissions (not only the matching ones), and the
      search echoed. A page beyond that count is empty. */
  function Page(t: Table<Permission>, search: PermissionPageSearch): (r: ResponseInfo<PageResponse<Permission>>)
    requires search.page >= 1 || search.pageSize == 0
    ensures r.code == 200 && r.msg.None? && r.data.Some?
    ensures r.data.value.list == Slice(StrLike(t, search.permissionStr), search.page, search.pageSize)
    ensures forall x :: x in r.data.value.list ==>
      x.id in t.docs && x.doc == t.docs[x.id] && Contains(x.doc.permissionStr, search.permissionStr)
    ensures r.data.value.totalPage == TotalPage(|t.ids|, search.pageSize)
    ensures search.pageSize >= 1 && search.page > r.data.value.totalPage.value ==> r.data.value.list == []
    ensures r.data.value.page == search.page && r.data.value.pageSize == search.pageSize
      && r.data.value.keyword == search.permissionStr
  {
    var matched := StrLike(t, search.permissionStr);
    PagePastEndEmpty(matched, |t.ids|, search.page, search.pageSize);
    Found(PageOf(matched, |t.ids|, search.page, search.pageSize, search.permissionStr))
  }

  /** list(): every permission once, in natural order. */
  function List(t: Table<Permission>): (r: ResponseInfo<seq<WithId<Permission>>>)
    ensures r.code == 200 && r.data.Some?
    ensures forall x :: x in r.data.value ==> x.id in t.docs && x.doc == t.docs[x.id]
    ensures t.Valid() ==> (forall k :: k in t.docs ==> WithId(k, t.docs[k]) in r.data.value) && Distinct(r.data.value)
  {
    Found(t.Find((p: Permission) => true))
  }

  /** The permission collection. */
  class Permissions {
    var table: Table<Permission>

    /** A valid table whose `permissionStr`s are unique: the duplicate checks
        of add and update keep it so. */
    ghost predicate Valid()
      reads this
    {
      table.Valid() && UniqueStrs(table)
    }

    constructor ()
      ensures Valid() && table.docs == map[]
    {
      table := Table([], map[]);
    }

    /** addPermission(data) with generated `id`: refused when the
        `permissionStr` is taken, otherwise NewPermission is inserted. */
    method AddPermission(data: PermissionAddCredentials, id: Id, now: string) returns (r: ResponseInfo<()>)
      requires Valid() && IsObjectId(id) && id !in table.docs
      modifies this
      ensures Valid()
      ensures StrTaken(old(table), data.permissionStr) ==> r == Fail(500, PermissionExists) && table == old(table)
      ensures !StrTaken(old(table), data.permissionStr) ==>
        r == Done() && table == old(table).Insert(id, NewPermission(data, now))
    {
      if StrTaken(table, data.permissionStr) {
        return Fail(500, PermissionExists);
      }
      table := table.Insert(id, NewPermission(data, now));
      r := Done();
    }

    /** updatePermission(id, data): refused whenever any permission (the
        edited one included) has the requested `permissionStr`; otherwise
        the record is edited if it exists, and an unknown id changes nothing,
        with the same success reply. */
    method UpdatePermission(id: Id, data: PermissionEditCredentials, now: string) returns (r: ResponseInfo<()>)
      requires Valid()
      modifies this
      ensures Valid()
      ensures StrTaken(old(table), data.permissionStr) ==> r == Fail(500, PermissionExists) && table == old(table)
      ensures !StrTaken(old(table), data.permissionStr) && id in old(table).docs ==>
        r == Done() && table == old(table).Put(id, EditedPermission(old(table).docs[id], data, now))
      ensures !StrTaken(old(table), data.permissionStr) && id !in old(table).docs ==>
        r == Done() && table == old(table)
    {
      if StrTaken(table, data.permissionStr) {
        return Fail(500, PermissionExists);
      }
      if id in table.docs {
        table := table.Put(id, EditedPermission(table.docs[id], data, now));
      }
      r := Done();
    }

    /** deletePermission(id): fails on an unknown id, otherwise removes
        exactly that record. */
    method DeletePermission(id: Id) returns (r: ResponseInfo<WithId<Permission>>)
      requires Valid()
      modifies this
      ensures Valid()
      ensures id !in old(table).docs ==> r == Fail(500, PermissionMissing) && table == old(table)
      ensures id in old(table).docs ==> r == Done() && table == old(table).Delete(id)
    {
      var info := GetPermission(table, id);
      if info.code != 200 {
        return info;
      }
      table := table.Delete(id);
      r := Done();
    }
  }

  /** Since the duplicate query does not exclude the edited permission, an
      edit that keeps a permission's `permissionStr` is always refused. */
  lemma KeepingStrIsRefused(t: Table<Permission>, id: Id, data: PermissionEditCredentials)
    requires id in t.docs && data.permissionStr == t.docs[id].permissionStr
    ensures StrTaken(t, data.permissionStr)
  {
  }
}
