/** app/services/user.ts (registration, lookup and paging): the user table.
    Registering inserts into the table in place (class `Users`); reading a
    user and paging are queries. */
module UserService {
  import opened Wrappers
  import opened Types
  import opened Strings
  import opened Store

  /** 0, 1 or 2; a missing or 0 value is stored as 2. */
  type Sex = s: int | 0 <= s <= 2

  /** UserInfo: the stored user. */
  datatype User = User(
    username: string,
    password: string,
    sex: Sex,
    memo: Option<string>,
    roleId: string,
    creTime: string,
    updateTime: string)

  /** UserRegisterCredentials. */
  datatype UserRegisterCredentials = UserRegisterCredentials(
    username: string,
    password: string,
    sex: Option<Sex>,
    memo: Option<string>,
    roleId: Option<string>)

  /** UserPageSearch: the username keyword and the page position. */
  datatype UserPageSearch = UserPageSearch(username: string, page: nat, pageSize: nat)

  /** `findOne({username})`: the name is taken. */
  predicate UsernameTaken(t: Table<User>, username: string) {
    exists k :: k in t.docs && t.docs[k].username == username
  }

  /** No two users share a username. */
  ghost predicate UniqueUsernames(t: Table<User>) {
    forall j, k :: j in t.docs && k in t.docs && t.docs[j].username == t.docs[k].username ==> j == k
  }

  /** The record register stores: the request with `sex || 2` and
      `roleId || "0"`, both timestamps `now`. */
  function NewUser(data: UserRegisterCredentials, now: string): (u: User)
    ensures u.username == data.username && u.password == data.password && u.memo == data.memo
    ensures TruthyNum(data.sex) ==> u.sex == data.sex.value
    ensures !TruthyNum(data.sex) ==> u.sex == 2
    ensures u.sex != 0
    ensures TruthyStr(data.roleId) ==> u.roleId == data.roleId.value
    ensures !TruthyStr(data.roleId) ==> u.roleId == "0"
    ensures u.creTime == now && u.updateTime == now
  {
    var sex: Sex := NumOr(data.sex, 2);
    User(data.username, data.password, sex, data.memo, StrOr(data.roleId, "0"), now, now)
  }

  /** getUserInfo(userId): the record, or 500 when the id is unknown. */
  function GetUserInfo(t: Table<User>, id: Id): (r: ResponseInfo<WithId<User>>)
    ensures r.code == 200 <==> id in t.docs
    ensures id in t.docs ==> r.data == Some(WithId(id, t.docs[id]))
    ensures id !in t.docs ==> r == Fail(500, UserMissing)
  {
    if id in t.docs then Found(WithId(id, t.docs[id])) else Fail(500, UserMissing)
  }

  /** `find({username: {$regex: kw}})`, in natural order. */
  function UsernameLike(t: Table<User>, kw: string): (r: seq<WithId<User>>)
    ensures forall x :: x in r ==> x.id in t.docs && x.doc == t.docs[x.id] && Contains(x.doc.username, kw)
    ensures t.Valid() ==> forall k :: k in t.docs && Contains(t.docs[k].username, kw) ==> WithId(k, t.docs[k]) in r
    ensures |r| <= |t.ids|
  {
    t.Find((u: User) => Contains(u.username, kw))
  }

  /** page(search): the requested page of the users whose username contains
      the keyword, a page count taken over all users, and the search echoed.
      A page beyond that count is empty. */
  function Page(t: Table<User>, search: UserPageSearch): (r: ResponseInfo<PageResponse<User>>)
    requires search.page >= 1 || search.pageSize == 0
    ensures r.code == 200 && r.msg.None? && r.data.Some?
    ensures r.data.value.list == Slice(UsernameLike(t, search.username), search.page, search.pageSize)
    ensures forall x :: x in r.data.value.list ==>
      x.id in t.docs && x.doc == t.docs[x.id] && Contains(x.doc.username, search.username)
    ensures r.data.value.totalPage == TotalPage(|t.ids|, search.pageSize)
    ensures search.pageSize >= 1 && search.page > r.data.value.totalPage.value ==> r.data.value.list == []
    ensures r.data.value.page == search.page && r.data.value.pageSize == search.pageSize
      && r.data.value.keyword == search.username
  {
    var matched := UsernameLike(t, search.username);
    PagePastEndEmpty(matched, |t.ids|, search.page, search.pageSize);
    Found(PageOf(matched, |t.ids|, search.page, search.pageSize, search.username))
  }

  /** The user collection. */
  class Users {
    var table: Table<User>

    /** A valid table whose usernames are unique: registration keeps it so. */
    ghost predicate Valid()
      reads this
    {
      table.Valid() && UniqueUsernames(table)
    }

    constructor ()
      ensures Valid() && table.docs == map[]
    {
      table := Table([], map[]);
    }

    /** register(data) with generated `id`: refused when the username is
        taken, otherwise NewUser is inserted. */
    method Register(data: UserRegisterCredentials, id: Id, now: string) returns (r: ResponseInfo<()>)
      requires Valid() && IsObjectId(id) && id !in table.docs
      modifies this
      ensures Valid()
      ensures UsernameTaken(old(table), data.username) ==> r == Fail(500, UserExists) && table == old(table)
      ensures !UsernameTaken(old(table), data.username) ==>
        r == Done() && table == old(table).Insert(id, NewUser(data, now))
    {
      if UsernameTaken(table, data.username) {
        return Fail(500, UserExists);
      }
      table := table.Insert(id, NewUser(data, now));
      r := Done();
    }
  }

  /** A registered user is found under its id, with its own fields. */
  lemma RegisterThenGet(t: Table<User>, data: UserRegisterCredentials, id: Id, now: string)
    requires id !in t.docs
    ensures GetUserInfo(t.Insert(id, NewUser(data, now)), id) == Found(WithId(id, NewUser(data, now)))
  {
  }
}
