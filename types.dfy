/** Shared shapes of types/index.d.ts: the `{code, msg, data}` reply every
    service returns, the tri-state status, and the page envelope. */
module Types {
  import opened Wrappers

  /** The status codes a reply may carry (401 and 403 come from the
      authentication layer, which is not part of this model). */
  type ResponseCode = c: int | c == 200 || c == 401 || c == 403 || c == 404 || c == 500
    witness 200

  /** 0: disabled, 1: enabled, 2: soft-deleted. */
  type BaseStatus = s: int | 0 <= s <= 2

  /** The messages the services attach to a reply. Each constructor stands for
      one distinct message text of the source; one text used in several places
      is one constructor. */
  datatype Msg =
    | CategoryExists          // addCategory: an identical category exists
    | CategoryMissing         // getCategory / addArticle / articleList: no such category
    | ParentMissing           // add/updateCategory: the parent does not resolve
    | CategoryNameTaken       // updateCategory: its (opaque) duplicate query hit
    | SelfParent              // updateCategory: pid is the category's own id
    | ParentCycle             // updateCategory, corrected guard: the parent lies below the category
    | HasChildren             // deleteCategory: a root that still has children
    | CategoryAbsent          // addArticleNum: no such category
    | ArticleExists           // add/updateArticle: the (title, pid) pair is taken
    | RootAttachment          // addArticle: articles cannot hang on a root
    | ArticleMissing          // getArticle: no such article
    | BadFileName             // addFile: the name has no '.'
    | Saved                   // addFile / getFileInfo: success text
    | ResourceMissing         // getFileInfo: no such file
    | RoleExists              // add/updateRole: the name is taken
    | RoleMissing             // getRole: no such role
    | PermissionExists        // add/updatePermission: the permissionStr is taken
    | PermissionMissing       // getPermission: no such permission
    | UserExists              // register: the username is taken
    | UserMissing             // getUserInfo: no such user

  /** ResponseInfo<D> of types/index.d.ts. */
  datatype ResponseInfo<D> = ResponseInfo(code: ResponseCode, msg: Option<Msg>, data: Option<D>)

  /** `{code, msg}`: a failed call. */
  function Fail<D>(code: ResponseCode, msg: Msg): ResponseInfo<D> {
    ResponseInfo(code, Some(msg), None)
  }

  /** `{code: 200, data}`. */
  function Found<D>(d: D): ResponseInfo<D> {
    ResponseInfo(200, None, Some(d))
  }

  /** `{code: 200}` with nothing else. */
  function Done<D>(): ResponseInfo<D> {
    ResponseInfo(200, None, None)
  }

  /** JavaScript truthiness of an optional string: present and not "". */
  predicate TruthyStr(o: Option<string>) {
    o.Some? && o.value != ""
  }

  /** JavaScript truthiness of an optional number: present and not 0. */
  predicate TruthyNum(o: Option<int>) {
    o.Some? && o.value != 0
  }

  /** `o || d` on an optional string. */
  function StrOr(o: Option<string>, d: string): string {
    if TruthyStr(o) then o.value else d
  }

  /** `o || d` on an optional number. */
  function NumOr(o: Option<int>, d: int): int {
    if TruthyNum(o) then o.value else d
  }
}
