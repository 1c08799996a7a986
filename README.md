# test-server backend services, modelled in Dafny

This project models the service layer of a small blog/admin backend. The layer is written against MongoDB. It has seven parts:

- a **category** taxonomy meant to have two levels: roots have `pid` "0" and second-level categories name their root. Nothing enforces the two levels: a category may name any stored category as its parent, so chains can be deeper and, through updateCategory, even cyclic (see "## Findings");
- **articles** that hang on second-level categories;
- uploaded **file** records;
- **roles**, **permissions** and **users**, each with name-uniqueness rules and pagination;
- the helpers in `app/utils/constant.ts`: the default category sort, the URL whitelist check that lets requests skip the token check, and the FFmpeg option builder. Every builder of that option builder writes into one module-level dictionary.

Each MongoDB collection is a `Store.Table`. It is a map from `_id` to document, plus the collection's natural (insertion) order, so `find()` results have a definite order. Each service is a class holding its table:

- `CategoryService.Categories`
- `ArticleService.Articles`
- `FileService.Files`
- `RoleService.Roles`
- `PermissionService.Permissions`
- `UserService.Users`

Inserting, updating and deleting are methods with `modifies this`. Their contracts state the whole new table for every outcome, and each class invariant is kept by every method, with each call taken as one uninterrupted step (see "## Left out"). Reads, listings and pages are functions over the tables. Every reply is a `Types.ResponseInfo` (`{code, msg, data}`). Message texts are the constructors of `Types.Msg`.

Generated ObjectIds and clock readings are parameters (`id`, `now`). A generated id is 24 lower-case hexadecimal digits (`Store.IsObjectId`). `$regex` keyword filters are literal substring matches (`Strings.Contains`), and the empty keyword matches everything. `pathToRegexp` matching is a function parameter of `Constant.VerifyURL`.

## Model

| member | source | states |
|---|---|---|
| Store.Table.Insert | app/services/category.ts:41 | `insertOne`: the new key maps to the document, every other document is kept, and the table stays valid for a fresh ObjectId |
| Store.Table.Put | app/services/category.ts:102-117 | `updateOne` on an existing id: only that document changes; keys and validity are kept |
| Store.Table.Delete | app/services/category.ts:147 | `deleteOne`: exactly that key disappears, every other document is kept, validity is kept |
| Store.Table.Find | app/services/article.ts:187-192 | `find(filter).toArray()`: only stored documents satisfying the filter; on a valid table every such document, each once |
| Store.CeilDiv | app/services/role.ts:133 | `Math.ceil(n / d)`: the least whole number of pages of size `d` that covers `n` |
| Store.TotalPage | app/services/role.ts:133 | the page count covers `count` tightly; no finite count exists for page size 0 |
| Store.Slice | app/services/role.ts:117-123 | `skip((page-1)*pageSize).limit(pageSize)`: a contiguous block starting at the skip position, no longer than the page size, and as long as the results allow; page size 0 means no limit |
| Store.SliceLocates | app/services/role.ts:117-123 | every result appears on some page: result `i` is entry `i % pageSize` of page `i / pageSize + 1` |
| Store.PagePastEndEmpty | app/services/role.ts:125-135 | a page past the page count is empty |
| Store.Skip | app/services/role.ts:121 | the number of matches `skip((page - 1) * pageSize)` passes over; with page size 0 it is 0 |
| Store.PageOf | app/services/role.ts:127-134 | the reply envelope: the requested slice of the matches, the page count over all `count` documents, and the page, page size and keyword echoed |
| Strings.EmptyKeywordMatches | app/services/article.ts:190 | the empty `$regex` keyword matches every string |
| Strings.StrLessTotal | app/services/category.ts:166-169 | the string order used for `updateTime` is total |
| Strings.StrLessTransitive | app/services/category.ts:166-169 | the string order used for `updateTime` is transitive |
| Strings.Split | app/services/file.ts:12 | `split('.')` gives at least one piece, and more than one exactly when the separator occurs |
| Strings.JoinSplit | app/services/file.ts:12 | splitting loses nothing: joining the pieces back restores the name |
| Strings.SplitFirst | app/services/file.ts:28 | the first piece of `a + "." + b` is `a` when `a` holds no '.' |
| Strings.SplitLast | app/services/file.ts:18 | the last piece is the text after the last separator: free of it, a suffix of the input, and preceded by the separator when one occurs |
| Strings.Upper | app/utils/constant.ts:47 | upper-casing keeps the length and maps each character |
| Strings.UpperIdempotent | app/utils/constant.ts:47 | upper-casing an upper-cased method changes nothing |
| Constant.FindEntry | app/utils/constant.ts:44-48 | `find`: the first whitelist row that admits the request, or none when no row does |
| Constant.DefaultSort | app/utils/constant.ts:15 | the sort value 10 a category gets when none, or 0, is given |
| Constant.URLWhiteList | app/utils/constant.ts:18-40 | the fourteen (path pattern, method) rows of the whitelist, in order |
| Constant.Admits | app/utils/constant.ts:44-47 | the `find` predicate: the row's pattern matches the url and its method is the upper-cased request method or "*" |
| Constant.LoginNeedsPost | app/utils/constant.ts:18-49 | a url that only the login pattern matches passes exactly for POST, in any letter case |
| Constant.VerifyURL | app/utils/constant.ts:43-49 | true exactly when some row's pattern matches the url and its method is "*" or the upper-cased request method |
| Constant.VerifyURLIgnoresCase | app/utils/constant.ts:47 | the request method is compared case-insensitively |
| Constant.DefaultMethodNeedsStarRow | app/utils/constant.ts:43-49 | with the default method "*", only rows whose method is "*" can admit a request |
| Constant.Appended | app/utils/constant.ts:62 | `+=` appends after a comma to a non-empty value, gives the value alone on "", and prefixes "undefined" on a key never set |
| Constant.Rendered | app/utils/constant.ts:65 | `get` over a dictionary: empty exactly when the key holds nothing, else the name and value each followed by a space |
| Constant.Render | app/utils/constant.ts:67-69 | `reduce((p, c) => p + get(c), '')`: the options' `get` texts concatenated in list order |
| Constant.RenderConcat | app/utils/constant.ts:67-69 | the fold distributes over list concatenation |
| Constant.RenderReadsOnlyListedKeys | app/utils/constant.ts:67-69 | keys outside the option list never influence `toString` |
| Constant.RenderNothingSet | app/utils/constant.ts:67-69 | with no listed option set, `toString` is empty |
| Constant.CommandObject.constructor | app/utils/constant.ts:52-55 | the shared dictionary starts with every listed option mapped to "" |
| Constant.FfmpegOption.Add | app/utils/constant.ts:61-63 | only the named key of the shared dictionary changes, to its appended value |
| Constant.FfmpegOption.Get | app/utils/constant.ts:64-66 | "" when the key holds nothing, else `name value ` |
| Constant.FfmpegOption.ToString | app/utils/constant.ts:67-69 | a builder with no listed option set renders "" |
| Constant.GetFfmpegOption | app/utils/constant.ts:57-60 | each call gives a new builder over the one shared dictionary and the fixed option list |
| Constant.BuildersShareState | app/utils/constant.ts:52-62 | a value one builder adds to an empty option is seen by a builder made later; the later value is appended after a comma and both builders render the combined value |
| CategoryService.RootIsNoKey | app/services/category.ts:34 | the root sentinel "0" is never a category id |
| CategoryService.GetCategory | app/services/category.ts:51-67 | 200 with the record exactly when the id is stored, else 500 |
| CategoryService.ListedBeforeTotal | app/services/category.ts:166-169 | any two categories are comparable under `{sort: 1, updateTime: -1}` |
| CategoryService.ListedBeforeTransitive | app/services/category.ts:166-169 | that order is transitive |
| CategoryService.InsertSorted | app/services/category.ts:166-169 | inserting into a sorted listing keeps it sorted and adds exactly that element |
| CategoryService.SortCategories | app/services/category.ts:166-169 | the sort gives a sorted permutation of its input |
| CategoryService.ChildrenOf | app/services/category.ts:162-165 | `find({pid})`: exactly the stored categories with that parent |
| CategoryService.CategoryList | app/services/category.ts:155-175 | code 200; exactly the categories whose `pid` is `pid or "0"`, each once (a permutation of the match), ordered by `sort` ascending, then `updateTime` descending |
| CategoryService.CategoryListEmpty | app/services/category.ts:140-145 | a category's listing is non-empty exactly when it has a child |
| CategoryService.SameFields | app/services/category.ts:15 | the whole-document `findOne(data)` filter: the name matches, and every field the request carries matches the stored one |
| CategoryService.Duplicate | app/services/category.ts:15-19 | addCategory's duplicate rule: some stored category matches the whole request |
| CategoryService.ResubmissionIsDuplicate | app/services/category.ts:15-39 | resending a request duplicates the category it stored exactly when none of its fields (an empty `pid`, `sort` 0, `status` other than 1, counter other than 0) was replaced on storing |
| CategoryService.NewCategory | app/services/category.ts:30-39 | a new record gets the name, the `pid` or "0" when it is missing or empty, the `sort` or 10 when it is missing or 0, counter 0, status 1 and both timestamps |
| CategoryService.UpdateRejection | app/services/category.ts:78-100 | an update is refused for an unknown id, a duplicate-query hit, a `pid` equal to the id, or an unresolved `pid`; a falsy `pid` skips both parent checks |
| CategoryService.Updated | app/services/category.ts:102-117 | the `||` defaults, each pinned: a missing or empty `pid` becomes "0"; a missing or 0 `sort` becomes 10; a missing or 0 `status` becomes 1; a missing or 0 counter keeps the old value; truthy values are stored as given; the creation time is kept |
| CategoryService.ChainEndsKept | app/services/category.ts:192-195 | the parent chain stays finite while only counters change |
| CategoryService.IncrementPatch | app/services/category.ts:187-190 | the patch spreads the record back, its `pid` included, with the counter raised by one |
| CategoryService.IncrementPatchFixed | app/services/category.ts:187-190 | the corrected patch: a root's "0" is left out, any other `pid` is kept, and the counter is raised by one |
| CategoryService.IncrementStep | app/services/category.ts:187-190 | one level of the climb: the update is applied if accepted, and a refused update changes nothing |
| CategoryService.StepKeepsLinks | app/services/category.ts:187-190 | an increment step keeps every key and parent link, and the table invariant |
| CategoryService.IncrementedAsWritten | app/services/category.ts:181-197 | the as-written climb keeps every key and parent link |
| CategoryService.Incremented | app/services/category.ts:181-197 | the corrected climb keeps every key and parent link |
| CategoryService.AsWrittenLeavesRootsAlone | app/services/category.ts:187-195 | as written, no root record ever changes |
| CategoryService.AsWrittenMissesRoot | app/services/category.ts:187-195 | as written, a leaf under a root gets +1 and its root +0 |
| CategoryService.IncrementRaisesLeafAndRoot | app/services/category.ts:181-197 | corrected: a leaf and its root each get exactly +1, and no other category changes |
| CategoryService.IncrementRootOnce | app/services/category.ts:181-197 | corrected: a root is raised exactly once, and nothing else changes |
| CategoryService.Chain | app/services/category.ts:192-195 | the categories addArticleNum visits, each stored, starting at `id` exactly when `id` is stored |
| CategoryService.ChainDistinct | app/services/category.ts:192-195 | a parent chain that ends visits no category twice |
| CategoryService.ChainKept | app/services/category.ts:187-195 | updates that keep parent links keep the chain that is visited |
| CategoryService.AcceptsFixed | app/services/category.ts:86-100 | the categories updateCategory accepts with the corrected patch: duplicate query misses, and a root or a stored parent |
| CategoryService.AcceptsAsWritten | app/services/category.ts:86-100 | the categories updateCategory accepts with the as-written patch: duplicate query misses and the parent sent, "0" for a root, is stored |
| CategoryService.FixedPatchAccepted | app/services/category.ts:86-100 | updateCategory refuses the corrected patch exactly outside AcceptsFixed |
| CategoryService.AsWrittenPatchAccepted | app/services/category.ts:86-100 | updateCategory refuses the as-written patch exactly outside AcceptsAsWritten |
| CategoryService.StepRaised | app/services/category.ts:187-190 | one accepted update raises that category's counter by one; a refused one changes nothing; no other category changes |
| CategoryService.ComposeRaised | app/services/category.ts:187-195 | a step followed by the climb from the parent is the climb over the whole chain |
| CategoryService.IncrementRaisesChain | app/services/category.ts:181-197 | corrected, at any depth: each accepted category on the chain gains exactly one article, and every other category is unchanged |
| CategoryService.AsWrittenRaisesChain | app/services/category.ts:181-197 | as written, at any depth: the same with AcceptsAsWritten, so roots are never raised |
| CategoryService.RelinkParentChain | app/services/category.ts:102-117 | changing one category's parent leaves every chain that avoids it ending where it did |
| CategoryService.ChainEndsMono | app/services/category.ts:192-195 | a chain that ends within some bound ends within any larger one |
| CategoryService.RelinkKeepsChains | app/services/category.ts:102-117 | once the relinked category's chain ends, every chain that ended still ends |
| CategoryService.CycleNeverEnds | app/services/category.ts:192-195 | on a cycle of two categories the climb of addArticleNum never reaches a root |
| CategoryService.TwoCycleAccepted | app/services/category.ts:88-117 | as written, pointing a category at its own child is accepted and leaves a valid table in which its chain never ends |
| CategoryService.UpdateRejectionFixed | app/services/category.ts:88-100 | the corrected guard refuses everything the written one refuses, and a parent whose chain reaches the id |
| CategoryService.TwoCycleRefused | app/services/category.ts:88-100 | the corrected guard refuses the two-category cycle |
| CategoryService.FixedUpdateKeepsChainsEnding | app/services/category.ts:88-117 | with the corrected guard, after an accepted update the updated category's chain ends and every chain that ended still ends |
| CategoryService.Categories.AddCategory | app/services/category.ts:8-48 | a full-document duplicate fails first, then an unresolved truthy `pid`, each with no insert; otherwise exactly NewCategory is inserted and returned |
| CategoryService.Categories.UpdateCategory | app/services/category.ts:70-124 | on any refusal the table is unchanged; otherwise only that record changes, to the defaulted update, which is returned |
| CategoryService.Categories.DeleteCategory | app/services/category.ts:127-152 | an unknown id fails, and so does a root with a child, each with no change; otherwise exactly that record goes, whatever articles still reference it |
| CategoryService.Categories.AddArticleNum | app/services/category.ts:178-198 | an unknown id gives 500 and no change; otherwise the table becomes the corrected climb, with reply 200 |
| ArticleService.TitleTaken | app/services/article.ts:15-18 | the duplicate query of addArticle and updateArticle: some stored article has this title under this category |
| ArticleService.Matches | app/services/article.ts:190 | the `$or` filter: the title or the description contains the keyword |
| ArticleService.Selected | app/services/article.ts:177-190 | the direct search's filter: `Matches`, and the category only when `pid` is truthy |
| ArticleService.GetArticle | app/services/article.ts:52-68 | 200 with the record exactly when the id is stored, else 500 |
| ArticleService.LeafSearch | app/services/article.ts:187-192 | exactly the articles whose title or description contains the keyword, restricted to the category when `pid` is truthy |
| ArticleService.FanOut | app/services/article.ts:154-173 | the concatenation holds exactly the articles found for some child |
| ArticleService.ArticleList | app/services/article.ts:137-197 | always code 200; an unknown category gives an empty list and a message; only stored, keyword-matching articles are listed |
| ArticleService.ChildCallIsLeafSearch | app/services/article.ts:158-167 | the recursive call on a child of a root is that child's direct search and never rejects |
| ArticleService.RootListing | app/services/article.ts:153-176 | listing a root gives exactly the matching articles whose category is a child of that root |
| ArticleService.LeafListing | app/services/article.ts:147-196 | listing a non-root category gives exactly its own matching articles |
| ArticleService.ListAllArticles | app/services/article.ts:178-192 | with no category and no keyword, every article is listed |
| ArticleService.Articles.AddArticle | app/services/article.ts:8-49 | a taken (title, pid) pair, an unknown category or a root category fails, in that order, with no insert; otherwise exactly the new article is inserted; categories, counters included, never change |
| ArticleService.Articles.DeleteArticle | app/services/article.ts:71-89 | an unknown id fails with no change; otherwise exactly that article goes, and no category changes |
| ArticleService.Articles.UpdateArticle | app/services/article.ts:92-134 | an unknown id fails, and so does any article already holding the target (title, pid), the edited one included; otherwise only that record is overwritten; the new category is not checked |
| ArticleService.Edited | app/services/article.ts:115-129 | an update overwrites title, description, content and category, renews the update time and keeps the creation time |
| ArticleService.KeepingTitleIsRefused | app/services/article.ts:104-113 | resubmitting an article's own title and category is always refused |
| ArticleService.AddThenGet | app/services/article.ts:35-67 | an added article is found under its id with its own fields |
| ArticleService.DeleteThenGet | app/services/article.ts:71-89 | a deleted article is no longer found; every other lookup is unchanged |
| FileService.Suffix | app/services/file.ts:12-18 | no suffix exactly when the name has no '.'; otherwise the suffix is the dot-free text after the last '.' |
| FileService.AssetUrl | app/services/file.ts:20 | the stored url `/assets/<id>.<suffix>` |
| FileService.GetFileInfo | app/services/file.ts:27-41 | 200 with a stored record whose id begins the key, or 404; a dot-free key finds exactly a stored id |
| FileService.SuffixIgnored | app/services/file.ts:28 | everything from the first '.' of the key on is ignored |
| FileService.Files.AddFile | app/services/file.ts:5-25 | a dot-free name fails with 500 and no insert; otherwise the record with url `/assets/<id>.<suffix>` is inserted and `{id, suffix}` returned |
| FileService.StoredFileIsServed | app/services/file.ts:20-34 | upload then fetch: the key `<id>.<suffix>` finds exactly the stored record, and its url is `/assets/` plus that key |
| PermissionService.StrTaken | app/services/permission.ts:14-16 | the duplicate query: some stored permission has this `permissionStr` |
| PermissionService.NewPermission | app/services/permission.ts:22-29 | a new permission keeps the given fields and `sort`, with status 1 and both timestamps |
| PermissionService.EditedPermission | app/services/permission.ts:53-63 | an edit sets every edit field, renews the update time and keeps the creation time |
| PermissionService.GetPermission | app/services/permission.ts:71-87 | 200 with the record exactly when stored, else 500 |
| PermissionService.StrLike | app/services/permission.ts:118-120 | exactly the permissions whose `permissionStr` contains the keyword |
| PermissionService.Page | app/services/permission.ts:111-138 | the requested page of the matches; the page count is over all permissions; pages past it are empty; the search is echoed |
| PermissionService.List | app/services/permission.ts:141-151 | every permission once |
| PermissionService.Permissions.AddPermission | app/services/permission.ts:7-34 | a taken `permissionStr` fails with no insert; otherwise the new permission is inserted; the strings stay unique |
| PermissionService.Permissions.UpdatePermission | app/services/permission.ts:37-68 | a taken `permissionStr` (the edited record's own included) fails; otherwise an existing record is edited and an unknown id changes nothing; the strings stay unique |
| PermissionService.Permissions.DeletePermission | app/services/permission.ts:90-108 | an unknown id fails with no change; otherwise exactly that permission goes |
| PermissionService.KeepingStrIsRefused | app/services/permission.ts:45-51 | an edit keeping the record's own `permissionStr` is always refused |
| RoleService.NameTaken | app/services/role.ts:14-16 | the duplicate query: some stored role has this name |
| RoleService.NewRole | app/services/role.ts:22-28 | a new role keeps the name and permissions, with status 1 and both timestamps |
| RoleService.EditedRole | app/services/role.ts:52-62 | an edit sets name, permissions and status, renews the update time and keeps the creation time |
| RoleService.GetRole | app/services/role.ts:70-86 | 200 with the record exactly when stored, else 500 |
| RoleService.NameLike | app/services/role.ts:117-120 | exactly the roles whose name contains the keyword |
| RoleService.Page | app/services/role.ts:110-137 | the requested page of the matches; the page count is over all roles, ignoring the filter; pages past it are empty; the search is echoed |
| RoleService.List | app/services/role.ts:140-148 | every role once |
| RoleService.Roles.AddRole | app/services/role.ts:7-33 | a taken name fails with no insert; otherwise the new role is inserted; names stay unique |
| RoleService.Roles.UpdateRole | app/services/role.ts:36-67 | a taken name (the edited role's own included) fails; otherwise an existing role is edited and an unknown id changes nothing, with the same reply; names stay unique |
| RoleService.Roles.DeleteRole | app/services/role.ts:89-107 | an unknown id fails with no change; otherwise exactly that role goes |
| RoleService.KeepingNameIsRefused | app/services/role.ts:44-50 | an edit keeping the role's own name is always refused |
| UserService.UsernameTaken | app/services/user.ts:39-41 | the duplicate query: some stored user has this username |
| UserService.NewUser | app/services/user.ts:47-54 | a registered user keeps the given fields, gets `sex or 2` (so 0 is stored as 2) and `roleId or "0"`, and both timestamps |
| UserService.GetUserInfo | app/services/user.ts:62-80 | 200 with the record exactly when stored, else 500 |
| UserService.UsernameLike | app/services/user.ts:116-119 | exactly the users whose username contains the keyword |
| UserService.Page | app/services/user.ts:109-136 | the requested page of the matches; the page count is over all users; pages past it are empty; the search is echoed |
| UserService.Users.Register | app/services/user.ts:32-59 | a taken username fails with no insert; otherwise the new user is inserted; usernames stay unique |
| UserService.RegisterThenGet | app/services/user.ts:47-79 | a registered user is found under its id with its own fields |

## Findings

| source | as written | input that shows it | evidently intended | confidence | as-written member | corrected member |
|---|---|---|---|---|---|---|
| app/services/category.ts:187-195 | addArticleNum spreads the whole record into updateCategory. For a root that includes `pid: "0"`, a truthy parent, so updateCategory tries to resolve "0" as a category. That fails, and the refused update is ignored. | A root R with one child L, then addArticleNum(L): L's articleNum grows by one and R's stays unchanged. With the real driver, ObjectId("0") throws, so the call also fails after L's update. | Every category on the chain, the root included, gets +1. | medium, not executed; reachable only on the branch where the duplicate query of category.ts:84 returns no document (see "## Left out") | CategoryService.AsWrittenMissesRoot (with CategoryService.IncrementedAsWritten, CategoryService.AsWrittenLeavesRootsAlone) | CategoryService.IncrementRaisesLeafAndRoot (with CategoryService.Incremented, CategoryService.IncrementPatchFixed, used by CategoryService.Categories.AddArticleNum) |
| app/services/category.ts:88-100 | updateCategory refuses a parent only when it equals the id itself. A parent further down the category's own subtree is accepted, and addArticleNum (category.ts:192-195) then climbs the resulting cycle forever. | A root A with a child B, then updateCategory(A, {pid: B}): accepted; A's parent is B and B's parent is A, so addArticleNum(A) never returns. | A parent whose own parent chain reaches the id is refused, so every parent chain still ends at a root. | medium, not executed; reachable only on the branch where the duplicate query of category.ts:84 returns no document | CategoryService.TwoCycleAccepted (with CategoryService.CycleNeverEnds) | CategoryService.FixedUpdateKeepsChainsEnding (with CategoryService.UpdateRejectionFixed, CategoryService.TwoCycleRefused) |

## Left out

- `user.login` and `user.update`, the token service, the Fastify routes with their Joi validation, swagger schemas and the MongoDB connection lifecycle: transport, JWT signing and I/O outside the service logic.
- File bytes, file-system writes and the `ffmpeg` child process: I/O.
- types/api/article.d.ts is not part of this model. The article record has the fields the service reads and writes: title, desc, content, pid and the two timestamps.
- Fields that a request carries beyond its declared type and that `...data` would copy into a record: the records hold exactly the declared fields.
- `$regex` is modelled as literal substring matching. Regular-expression metacharacters are not interpreted.
- `pathToRegexp(path).exec(url)` is the function parameter `matches`, because it comes from a foreign library.
- `new ObjectId(id)` throws on a malformed id. The model treats such an id as unknown (a "not found" reply) instead of an exception. This covers `getCategory("0")` inside addArticleNum.
- ObjectId generation and `Date` readings are parameters. Timestamps are strings compared character by character, as the stored values are. Where the source reads the clock twice for one record (`creTime` and `updateTime` in addCategory, addArticle and the other inserts), one reading stands for both, so the model does not capture the two differing by a millisecond.
- Ids are matched as exact strings, while `new ObjectId(id)` parses hex case-insensitively. So an upper-case spelling of a stored id does not find that record here. In the source it does, in getCategory, getArticle, getRole, getPermission, getUserInfo and the updates and deletes of each service. Because of this, the model does not capture: an id's aliases; updateCategory accepting a parent that is the category itself spelt in upper case, which passes the `id === data.pid` check and creates a cycle that addArticleNum never leaves (a cycle through a child, spelt as stored, is the second row of "## Findings"); addArticle storing an article under an upper-case spelling of its category's id, which the listing by `pid` never shows.
- Each service call is modelled as one uninterrupted step. The source checks (`findOne` for a duplicate, `getCategory` for the parent), awaits, then writes, so two interleaved requests can both pass a duplicate check. Interleaved requests are not modelled. The uniqueness invariants of the classes (`ArticleService.UniqueTitles`, `RoleService.UniqueNames`, `PermissionService.UniqueStrs`, `UserService.UniqueUsernames`) rely on this, and so do the consecutive updates of addArticleNum.
- The Promise.all fan-out of articleList runs sequentially. The child results are concatenated in child order, and `ArticleService.ChildCallIsLeafSearch` shows the rejection path cannot be taken.
- The duplicate query of updateCategory, `{nam: ..., $not: ...}` (a misspelled field under a top-level `$not`), is not a name check. Its outcome is the parameter `nameQueryHit`, and in addArticleNum it is the parameter `hit`. A MongoDB server rejects a top-level `$not` ("unknown top level operator"), so in practice every updateCategory call throws at category.ts:84, before any check or write. The branch with `nameQueryHit` false, where the update goes on, is therefore hypothetical, and so are both rows of "## Findings", which describe paths that run through it.
- MongoDB does not promise a stable sort. categoryList breaks ties of (`sort`, `updateTime`) by natural order, using a stable insertion sort.
- The recursion of addArticleNum terminates only on acyclic parent chains. The model takes a ghost bound `n` on the chain length (`CategoryService.ChainEnds`) as a precondition. `CategoryService.Categories.UpdateCategory` keeps the guard as written, so an accepted update can close a cycle (`CategoryService.TwoCycleAccepted`), and afterwards that precondition cannot be met for the categories on it. The corrected guard `CategoryService.UpdateRejectionFixed` is a ghost definition, because it follows the parent chain within a ghost bound. It is proved to keep every chain finite, but the class does not run it.
- `CategoryService.Categories.AddArticleNum` uses the corrected increment patch from the Findings table. The as-written behaviour is `CategoryService.IncrementedAsWritten`.
- Paging with page 0 and a non-zero page size is excluded by precondition. It sends a negative skip, which the MongoDB server refuses (the Node driver passes any number through).
- A missing page keyword (`name`, `permissionStr` or `username` left out of the search) is not modelled: the keyword is a required string.
- `Math.ceil` on floating point is modelled as integer ceiling division. Page size 0, whose quotient is not finite and is sent as null, is the `None` page count.
- `toLocaleUpperCase` is modelled as ASCII upper-casing.
- Reply message texts are the constructors of `Types.Msg`, and the `ResponseCode` text table of `app/utils/constant.ts` is left out: both are plain strings.
- Constant.FfmpegOption.ToString: its contract states only the empty case. The general fold is `Constant.Render`, and `Constant.RenderReadsOnlyListedKeys` relates it to the listed keys.
- The permission records embedded in a role are copies. Nothing keeps them in step with the permission table, and the model does not either.
