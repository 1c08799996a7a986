/** app/utils/constant.ts: the default category sort, the URL whitelist that
    lets requests bypass the token check, and the FFmpeg option builder whose
    builders all write into one module-level dictionary. */
module Constant {
  import opened Wrappers
  import opened Strings

  /** The sort value a category gets when none (or 0) is given. */
  const DefaultSort: int := 10

  /** One whitelist row: a path pattern and the method it admits ("*": any). */
  datatype WhiteListEntry = WhiteListEntry(path: string, methods: string)

  const URLWhiteList: seq<WhiteListEntry> := [
    WhiteListEntry("/user/login", "POST"),
    WhiteListEntry("/user/register", "POST"),
    WhiteListEntry("/user/:userId", "GET"),
    WhiteListEntry("/file/upload", "POST"),
    WhiteListEntry("/test/:key", "*"),
    WhiteListEntry("/category/:key", "*"),
    WhiteListEntry("/article/:key", "*"),
    WhiteListEntry("/article", "*"),
    WhiteListEntry("/role/:key", "*"),
    WhiteListEntry("/permission/:key", "*"),
    WhiteListEntry("/docs/static/:key", "GET"),
    WhiteListEntry("/docs/:key", "GET"),
    WhiteListEntry("/assets/:key", "*"),
    WhiteListEntry("/favicon.ico", "*")
  ]

  /** Entry `e` admits the request: its compiled path pattern matches the url
      (`matches(path, url)` stands for `pathToRegexp(path).exec(url)`) and its
      method is the upper-cased request method or "*". */
  predicate Admits(e: WhiteListEntry, url: string, requestMethod: string, matches: (string, string) -> bool) {
    matches(e.path, url) && (Upper(requestMethod) == e.methods || e.methods == "*")
  }

  /** `list.find(...)` from position `from`: the first admitting entry. */
  function FindEntry(list: seq<WhiteListEntry>, from: nat, url: string, requestMethod: string,
                     matches: (string, string) -> bool): (r: Option<nat>)
    requires from <= |list|
    ensures r.Some? ==> from <= r.value < |list| && Admits(list[r.value], url, requestMethod, matches)
    ensures r.Some? ==> forall j :: from <= j < r.value ==> !Admits(list[j], url, requestMethod, matches)
    ensures r.None? ==> forall j :: from <= j < |list| ==> !Admits(list[j], url, requestMethod, matches)
    decreases |list| - from
  {
    if from == |list| then None
    else if Admits(list[from], url, requestMethod, matches) then Some(from)
    else FindEntry(list, from + 1, url, requestMethod, matches)
  }

  /** VerifyURL: the request may skip the token check exactly when some
      whitelist entry admits it. */
  function VerifyURL(url: string, requestMethod: string, matches: (string, string) -> bool): (ok: bool)
    ensures ok <==> exists i :: 0 <= i < |URLWhiteList| && Admits(URLWhiteList[i], url, requestMethod, matches)
  {
    FindEntry(URLWhiteList, 0, url, requestMethod, matches).Some?
  }

  /** A url that only the login row's pattern matches passes exactly for the
      method POST, in any case: that row names a method, not "*". */
  lemma LoginNeedsPost(url: string, requestMethod: string, matches: (string, string) -> bool)
    requires matches("/user/login", url)
    requires forall i :: 1 <= i < |URLWhiteList| ==> !matches(URLWhiteList[i].path, url)
    ensures VerifyURL(url, requestMethod, matches) <==> Upper(requestMethod) == "POST"
  {
    assert URLWhiteList[0] == WhiteListEntry("/user/login", "POST");
    assert Admits(URLWhiteList[0], url, requestMethod, matches) <==> Upper(requestMethod) == "POST";
  }

  /** The method is compared case-insensitively: a lower-case method is
      admitted exactly where its upper-case spelling is. */
  lemma VerifyURLIgnoresCase(url: string, requestMethod: string, matches: (string, string) -> bool)
    ensures VerifyURL(url, requestMethod, matches) == VerifyURL(url, Upper(requestMethod), matches)
  {
    UpperIdempotent(requestMethod);
  }

  /** With the default method "*" only the rows whose method is "*" can admit
      a request: "*" upper-cases to itself and names no real method. */
  lemma {:induction false} DefaultMethodNeedsStarRow(url: string, matches: (string, string) -> bool)
    ensures VerifyURL(url, "*", matches) <==>
      exists i :: 0 <= i < |URLWhiteList| && URLWhiteList[i].methods == "*" && matches(URLWhiteList[i].path, url)
  {
    assert Upper("*") == "*";
  }

  /** The options `toString` renders, in this order. */
  const CommandList: seq<string> := ["-ss", "-to", "-i", "-fs", "-vf", "-s", "-r", "-y"]

  /** `commandObject[name] ? ...`: the key holds a non-empty value. */
  predicate Holds(entries: map<string, string>, name: string) {
    name in entries && entries[name] != ""
  }

  /** The value `commandObject[name] += (commandObject[name] ? ',' : '') + value`
      leaves: appended after a comma to a non-empty value, the value alone
      on "", and glued to the text "undefined" on a key never set. */
  function Appended(entries: map<string, string>, name: string, value: string): (s: string)
    ensures Holds(entries, name) ==> s == entries[name] + "," + value
    ensures name in entries && entries[name] == "" ==> s == value
    ensures name !in entries ==> s == "undefined" + value
  {
    var current := if name in entries then entries[name] else "undefined";
    current + (if Holds(entries, name) then "," else "") + value
  }

  /** `get(name)` over a dictionary: the option and its value, each followed by a space, or nothing. */
  function Rendered(entries: map<string, string>, name: string): (s: string)
    ensures s == "" <==> !Holds(entries, name)
    ensures Holds(entries, name) ==> s == name + " " + entries[name] + " "
  {
    if Holds(entries, name) then name + " " + entries[name] + " " else ""
  }

  /** `keys.reduce((p, c) => p + get(c), '')`. */
  function Render(keys: seq<string>, entries: map<string, string>): string
    decreases |keys|
  {
    if keys == [] then "" else Render(keys[..|keys| - 1], entries) + Rendered(entries, keys[|keys| - 1])
  }

  /** The fold distributes over the option list: rendering two lists one
      after the other is rendering their concatenation. */
  lemma {:induction false} RenderConcat(a: seq<string>, b: seq<string>, entries: map<string, string>)
    ensures Render(a + b, entries) == Render(a, entries) + Render(b, entries)
    decreases |b|
  {
    if b == [] {
      assert a + b == a;
    } else {
      var init, last := b[..|b| - 1], b[|b| - 1];
      assert (a + b)[..|a + b| - 1] == a + init;
      assert (a + b)[|a + b| - 1] == last;
      calc {
        Render(a + b, entries);
        Render(a + init, entries) + Rendered(entries, last);
        { RenderConcat(a, init, entries); }
        Render(a, entries) + Render(init, entries) + Rendered(entries, last);
        Render(a, entries) + Render(b, entries);
      }
    }
  }

  /** Keys outside the rendered list never influence the rendering: two
      dictionaries that agree on the listed keys render alike. */
  lemma {:induction false} RenderReadsOnlyListedKeys(keys: seq<string>, e1: map<string, string>, e2: map<string, string>)
    requires forall k :: k in keys ==> (k in e1 <==> k in e2) && (k in e1 ==> e1[k] == e2[k])
    ensures Render(keys, e1) == Render(keys, e2)
    decreases |keys|
  {
    if keys != [] {
      RenderReadsOnlyListedKeys(keys[..|keys| - 1], e1, e2);
    }
  }

  /** With no listed option set, the rendering is empty. */
  lemma {:induction false} RenderNothingSet(keys: seq<string>, entries: map<string, string>)
    ensures (forall k :: k in keys ==> !Holds(entries, k)) ==> Render(keys, entries) == ""
    decreases |keys|
  {
    if keys != [] && forall k :: k in keys ==> !Holds(entries, k) {
      assert keys[|keys| - 1] in keys;
      RenderNothingSet(keys[..|keys| - 1], entries);
    }
  }

  /** The module-level `commandObject`: one dictionary for the whole process. */
  class CommandObject {
    var entries: map<string, string>

    /** `commandList.map(key => commandObject[key] = "")`. */
    constructor ()
      ensures entries.Keys == set k | k in CommandList
      ensures forall k :: k in entries ==> entries[k] == ""
    {
      entries := map k | k in CommandList :: "";
    }
  }

  /** The object GetFfmpegOption returns: the option list and a reference to
      the shared dictionary. */
  class FfmpegOption {
    const list: seq<string>
    const data: CommandObject

    constructor (shared: CommandObject)
      ensures list == CommandList && data == shared
    {
      list := CommandList;
      data := shared;
    }

    /** `add(name, value)`: only `name` changes, in the shared dictionary. */
    method Add(name: string, value: string)
      modifies data
      ensures data.entries == old(data.entries)[name := Appended(old(data.entries), name, value)]
    {
      data.entries := data.entries[name := Appended(data.entries, name, value)];
    }

    /** `get(name)`. */
    function Get(name: string): (s: string)
      reads data
      ensures s == "" <==> !Holds(data.entries, name)
      ensures Holds(data.entries, name) ==> s == name + " " + data.entries[name] + " "
    {
      Rendered(data.entries, name)
    }

    /** `toString()`: the listed options in list order, each rendered by get. */
    function ToString(): (s: string)
      reads data
      ensures (forall k :: k in list ==> !Holds(data.entries, k)) ==> s == ""
    {
      RenderNothingSet(list, data.entries);
      Render(list, data.entries)
    }
  }

  /** GetFfmpegOption(): a new builder over the one shared dictionary. */
  method GetFfmpegOption(commandObject: CommandObject) returns (b: FfmpegOption)
    ensures fresh(b) && b.list == CommandList && b.data == commandObject
  {
    b := new FfmpegOption(commandObject);
  }

  /** Builders share their state: a value one builder adds to an empty
      option, a builder made later sees, and the later builder's own value
      accumulates after it with a comma, visible to both. */
  method BuildersShareState(commandObject: CommandObject, name: string, v1: string, v2: string)
    returns (first: FfmpegOption, second: FfmpegOption)
    requires name in commandObject.entries && commandObject.entries[name] == "" && v1 != ""
    modifies commandObject
    ensures first != second && first.data == second.data == commandObject
    ensures commandObject.entries == old(commandObject.entries)[name := v1 + "," + v2]
    ensures second.Get(name) == name + " " + (v1 + "," + v2) + " "
    ensures first.Get(name) == second.Get(name)
  {
    first := GetFfmpegOption(commandObject);
    first.Add(name, v1);
    second := GetFfmpegOption(commandObject);
    second.Add(name, v2);
  }
}
