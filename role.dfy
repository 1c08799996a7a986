/** app/services/role.ts: the role table. A role has a unique name and the
    permissions it grants; adding, editing and deleting change the table in
    place (class `Roles`), reading, paging and listing are queries. */
module RoleService {
  import opened Wrappers
  import opened Types
  import opened Strings
  import opened Store
  import opened PermissionService

  /** RoleSchema. */
  datatype Role = Role(
    name: string,
    creTime: string,
    updateTime: string,
    permission: seq<Permission>,
    status: BaseStatus)

  /** RoleAddCredentials. */
  datatype RoleAddCredentials = RoleAddCredentials(name: string, permission: seq<Permission>)

  /** RoleEditCredentials: the add fields and a status. */
  datatype RoleEditCredentials = RoleEditCredentials(name: string, permission: seq<Permission>, status: BaseStatus)

  /** RolePageSearch: the name keyword and the page position. */
  datatype RolePageSearch = RolePageSearch(name: string, page: nat, pageSize: nat)

  /** `findOne({name})`: some role already has this name. */
  predicate NameTaken(t: Table<Role>, name: string) {
    exists k :: k in t.docs && t.docs[k].name == name
  }

  /** No two roles share a name. */
  ghost predicate UniqueNames(t: Table<Role>) {
    forall j, k :: j in t.docs && k in t.docs && t.docs[j].name == t.docs[k].name ==> j == k
  }

  /** The record addRole stores: the request with status 1. */
  function NewRole(data: RoleAddCredentials, now: string): (r: Role)
    ensures r.name == data.name && r.permission == data.permission
    ensures r.status == 1 && r.creTime == now && r.updateTime == now
  {
    Role(data.name, now, now, data.permission, 1)
  }

  /** The record updateRole leaves: name, permissions and status set, the
      update time renewed, the creation time kept. */
  function EditedRole(r: Role, data: RoleEditCredentials, now: string): (e: Role)
    ensures e.name == data.name && e.permission == data.permission && e.status == data.status
    ensures e.creTime == r.creTime && e.updateTime == now
  {
    Role(data.name, r.creTime, now, data.permission, data.status)
  }

  /** getRole(id): the record, or 500 when the id is unknown. */
  function GetRole(t: Table<Role>, id: Id): (r: ResponseInfo<WithId<Role>>)
    ensures r.code == 200 <==> id in t.docs
    ensures id in t.docs ==> r.data == Some(WithId(id, t.docs[id]))
    ensures id !in t.docs ==> r == Fail(500, RoleMissing)
  {
    if id in t.docs then Found(WithId(id, t.docs[id])) else Fail(500, RoleMissing)
  }

  /** `find({name: {$regex: kw}})`, in natural order. */
  function NameLike(t: Table<Role>, kw: string): (r: seq<WithId<Role>>)
    ensures forall x :: x in r ==> x.id in t.docs && x.doc == t.docs[x.id] && Contains(x.doc.name, kw)
    ensures t.Valid() ==> forall k :: k in t.docs && Contains(t.docs[k].name, kw) ==> WithId(k, t.docs[k]) in r
    ensures |r| <= |t.ids|
  {
    t.Find((r: Role) => Contains(r.name, kw))
  }

  /** page(search): the requested page of the roles whose name contains the
      keyword, a page count taken over all roles (not only the matching
      ones), and the search echoed. A page beyond that count is empty. */
  function Page(t: Table<Role>, search: RolePageSearch): (r: ResponseInfo<PageResponse<Role>>)
    requires search.page >= 1 || search.pageSize == 0
    ensures r.code == 200 && r.msg.None? && r.data.Some?
    ensures r.data.value.list == Slice(NameLike(t, search.name), search.page, search.pageSize)
    ensures forall x :: x in r.data.value.list ==>
      x.id in t.docs && x.doc == t.docs[x.id] && Contains(x.doc.name, search.name)
    ensures r.data.value.totalPage == TotalPage(|t.ids|, search.pageSize)
    ensures search.pageSize >= 1 && search.page > r.data.value.totalPage.value ==> r.data.value.list == []
    ensures r.data.value.page == search.page && r.data.value.pageSize == search.pageSize
      && r.data.value.keyword == search.name
  {
    var matched := NameLike(t, search.name);
    PagePastEndEmpty(matched, |t.ids|, search.page, search.pageSize);
    Found(PageOf(matched, |t.ids|, search.page, search.pageSize, search.name))
  }

  /** list(): every role once, in natural order. */
  function List(t: Table<Role>): (r: ResponseInfo<seq<WithId<Role>>>)
    ensures r.code == 200 && r.data.Some?
    ensures forall x :: x in r.data.value ==> x.id in t.docs && x.doc == t.docs[x.id]
    ensures t.Valid() ==> (forall k :: k in t.docs ==> WithId(k, t.docs[k]) in r.data.value) && Distinct(r.data.value)
  {
    Found(t.Find((r: Role) => true))
  }

  /** The role collection. */
  class Roles {
    var table: Table<Role>

    /** A valid table whose names are unique: the duplicate checks of add
        and update keep it so. */
    ghost predicate Valid()
      reads this
    {
      table.Valid() && UniqueNames(table)
    }

    constructor ()
      ensures Valid() && table.docs == map[]
    {
      table := Table([], map[]);
    }

    /** addRole(data) with generated `id`: refused when the name is taken,
        otherwise NewRole is inserted. */
    method AddRole(data: RoleAddCredentials, id: Id, now: string) returns (r: ResponseInfo<()>)
      requires Valid() && IsObjectId(id) && id !in table.docs
      modifies this
      ensures Valid()
      ensures NameTaken(old(table), data.name) ==> r == Fail(500, RoleExists) && table == old(table)
      ensures !NameTaken(old(table), data.name) ==> r == Done() && table == old(table).Insert(id, NewRole(data, now))
    {
      if NameTaken(table, data.name) {
        return Fail(500, RoleExists);
      }
      table := table.Insert(id, NewRole(data, now));
      r := Done();
    }

    /** updateRole(id, data): refused whenever any role (the edited one
        included) has the requested name; otherwise the record is edited if
        it exists, and an unknown id changes nothing, with the same success
        reply. */
    method UpdateRole(id: Id, data: RoleEditCredentials, now: string) returns (r: ResponseInfo<()>)
      requires Valid()
      modifies this
      ensures Valid()
      ensures NameTaken(old(table), data.name) ==> r == Fail(500, RoleExists) && table == old(table)
      ensures !NameTaken(old(table), data.name) && id in old(table).docs ==>
        r == Done() && table == old(table).Put(id, EditedRole(old(table).docs[id], data, now))
      ensures !NameTaken(old(table), data.name) && id !in old(table).docs ==>
        r == Done() && table == old(table)
    {
      if NameTaken(table, data.name) {
        return Fail(500, RoleExists);
      }
      if id in table.docs {
        table := table.Put(id, EditedRole(table.docs[id], data, now));
      }
      r := Done();
    }

    /** deleteRole(id): fails on an unknown id, otherwise removes exactly
        that record. */
    method DeleteRole(id: Id) returns (r: ResponseInfo<WithId<Role>>)
      requires Valid()
      modifies this
      ensures Valid()
      ensures id !in old(table).docs ==> r == Fail(500, RoleMissing) && table == old(table)
      ensures id in old(table).docs ==> r == Done() && table == old(table).Delete(id)
    {
      var info := GetRole(table, id);
      if info.code != 200 {
        return info;
      }
      table := table.Delete(id);
      r := Done();
    }
  }

  /** Since the duplicate query does not exclude the edited role, an edit
      that keeps a role's name is always refused. */
  lemma KeepingNameIsRefused(t: Table<Role>, id: Id, data: RoleEditCredentials)
    requires id in t.docs && data.name == t.docs[id].name
    ensures NameTaken(t, data.name)
  {
  }
}
