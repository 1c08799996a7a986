/** app/services/file.ts: the records of uploaded files. A file is stored
    under a generated id and served at `/assets/<id>.<suffix>`; the assets
    route looks it up again by that `<id>.<suffix>` key. */
module FileService {
  import opened Wrappers
  import opened Types
  import opened Strings
  import opened Store

  /** FileSchema: the uploaded name, the public url and the MIME type. */
  datatype FileRecord = FileRecord(filename: string, url: string, fileType: string)

  /** The `data` of a successful upload. */
  datatype Stored = Stored(id: Id, suffix: string)

  /** The suffix of a file name: the text after its last '.', or None when
      the name has no '.' (the name splits into a single piece). */
  function Suffix(filename: string): (s: Option<string>)
    ensures s.None? <==> '.' !in filename
    ensures s.Some? ==> '.' !in s.value
    ensures s.Some? ==> (|s.value| < |filename|
      && filename == filename[..|filename| - |s.value| - 1] + "." + s.value)
  {
    var parts := Split(filename, '.');
    if |parts| <= 1 then None
    else
      var last := parts[|parts| - 1];
      SplitLast(filename, '.');
      assert filename == filename[..|filename| - |last| - 1] + "." + filename[|filename| - |last|..];
      Some(last)
  }

  /** The public url of a stored file. */
  function AssetUrl(id: Id, suffix: string): string {
    "/assets/" + id + "." + suffix
  }

  /** getFileInfo(idWithSuffix): the record whose id is the text before the
      first '.', or 404. */
  function GetFileInfo(t: Table<FileRecord>, idWithSuffix: string): (r: ResponseInfo<WithId<FileRecord>>)
    ensures r.code == 200 || r == Fail(404, ResourceMissing)
    ensures r.code == 200 ==> (r.msg == Some(Saved) && r.data.Some?
      && r.data.value.id in t.docs && r.data.value.doc == t.docs[r.data.value.id]
      && StartsWith(idWithSuffix, r.data.value.id))
    ensures '.' !in idWithSuffix ==> (r.code == 200 <==> idWithSuffix in t.docs)
  {
    var id := Split(idWithSuffix, '.')[0];
    JoinSplit(idWithSuffix, '.');
    if id in t.docs then
      assert StartsWith(idWithSuffix, id) by {
        var parts := Split(idWithSuffix, '.');
        if |parts| > 1 {
          assert idWithSuffix == parts[0] + (['.'] + Join(parts[1..], '.'));
        }
      }
      ResponseInfo(200, Some(Saved), Some(WithId(id, t.docs[id])))
    else Fail(404, ResourceMissing)
  }

  /** Whatever follows the first '.' of the key is ignored. */
  lemma SuffixIgnored(t: Table<FileRecord>, id: string, rest: string)
    requires '.' !in id
    ensures GetFileInfo(t, id + "." + rest) == GetFileInfo(t, id)
  {
    SplitFirst(id, '.', rest);
  }

  /** The file collection. */
  class Files {
    var table: Table<FileRecord>

    ghost predicate Valid()
      reads this
    {
      table.Valid()
    }

    constructor ()
      ensures Valid() && table.docs == map[]
    {
      table := Table([], map[]);
    }

    /** addFile(filename, fileType) with generated `id`: a name without '.'
        is refused and nothing is stored; otherwise the record with url
        `/assets/<id>.<suffix>` is stored under `id`, and the id and suffix
        are returned. */
    method AddFile(filename: string, fileType: string, id: Id) returns (r: ResponseInfo<Stored>)
      requires Valid() && IsObjectId(id) && id !in table.docs
      modifies this
      ensures Valid()
      ensures Suffix(filename).None? ==> r == Fail(500, BadFileName) && table == old(table)
      ensures Suffix(filename).Some? ==>
        var suffix := Suffix(filename).value;
        && r == ResponseInfo(200, Some(Saved), Some(Stored(id, suffix)))
        && table == old(table).Insert(id, FileRecord(filename, AssetUrl(id, suffix), fileType))
    {
      var arr := Split(filename, '.');
      if |arr| <= 1 {
        return Fail(500, BadFileName);
      }
      var suffix := arr[|arr| - 1];
      table := table.Insert(id, FileRecord(filename, AssetUrl(id, suffix), fileType));
      r := ResponseInfo(200, Some(Saved), Some(Stored(id, suffix)));
    }
  }

  /** Upload then fetch: the `<id>.<suffix>` key of a stored file finds
      exactly the stored record, and its url is `/assets/` followed by that
      key. */
  lemma {:induction false} StoredFileIsServed(t: Table<FileRecord>, filename: string, fileType: string, id: Id)
    requires IsObjectId(id) && id !in t.docs && Suffix(filename).Some?
    ensures var suffix := Suffix(filename).value;
      var rec := FileRecord(filename, AssetUrl(id, suffix), fileType);
      && GetFileInfo(t.Insert(id, rec), id + "." + suffix) == ResponseInfo(200, Some(Saved), Some(WithId(id, rec)))
      && rec.url == "/assets/" + (id + "." + suffix)
  {
    var suffix := Suffix(filename).value;
    var rec := FileRecord(filename, AssetUrl(id, suffix), fileType);
    ObjectIdShape(id);
    SuffixIgnored(t.Insert(id, rec), id, suffix);
  }
}
