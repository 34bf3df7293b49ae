// Metadata worker pipeline (src/calibre/ebooks/metadata/worker.py): import
// plugins rewrite the list of paths, the metadata read from them loses its
// cover, which travels as a side file, and the duplicate check against the
// caller's known titles is gated on the caller passing a set.

module MetadataWorker {
  import opened Wrappers
  import Text
  import PosixPath

  /** The fields of calibre's Metadata object that the worker reads or
      writes. `coverData` is the `cover_data` value as the extractor returns
      it, normally a (format, data) pair; only its last entry is read. */
  datatype Metadata = Metadata(
    title: Option<string>,
    authors: seq<string>,
    applicationId: Option<string>,
    cover: Option<string>,
    coverData: seq<Option<Bytes>>)

  /** What one call of the import-plugin runner does with a path. */
  datatype PluginOutcome = Raised | Returned(nfp: Option<string>)

  /** The collaborators the worker calls and cannot see: `os.access(p,
      R_OK)`, `samefile`, `run_plugins_on_import`, `metadata_from_formats`,
      `metadata_to_opf` and `icu_lower`. */
  datatype Env<Opf> = Env(
    readable: string -> bool,
    sameFile: (string, string) -> bool,
    plugin: string -> PluginOutcome,
    extract: seq<string> -> Metadata,
    toOpf: (Metadata, string) -> Opf,
    lower: string -> string)

  /** The cover file written to the scratch directory. */
  datatype CoverFile = CoverFile(path: string, data: Bytes)

  datatype Serialized<Opf> = Serialized(
    mi: Metadata, opf: Opf, hasCover: bool, written: Option<CoverFile>)

  /** The dictionary returned by read_metadata_bulk: exactly the keys `opf`
      and `cdata`. */
  datatype Bulk<Opf> = Bulk(opf: Option<Opf>, cdata: Option<Bytes>)

  const DummyApplicationId := "__calibre_dummy__"
  const DefaultLang := "und"

  predicate Truthy(s: Option<string>) {
    s.Some? && s.value != []
  }

  predicate BytesTruthy(b: Option<Bytes>) {
    b.Some? && b.value != []
  }

  /** The cover bytes kept from the extracted record: the last entry of a
      non-empty `cover_data`, otherwise none. */
  function KeptCover(mi: Metadata): (c: Option<Bytes>)
    ensures mi.coverData == [] ==> c == None
    ensures mi.coverData != [] ==> c == mi.coverData[|mi.coverData| - 1]
  {
    if mi.coverData != [] then mi.coverData[|mi.coverData| - 1] else None
  }

  /** The record as it is serialized: the cover fields are cleared and an
      unset application id takes the dummy value. */
  function Stripped(mi: Metadata): (r: Metadata)
    ensures r.cover == None && r.coverData == [None, None]
    ensures Truthy(r.applicationId)
    ensures Truthy(mi.applicationId) ==> r.applicationId == mi.applicationId
    ensures !Truthy(mi.applicationId) ==> r.applicationId == Some(DummyApplicationId)
    ensures r.title == mi.title && r.authors == mi.authors
  {
    var cleared := mi.(cover := None, coverData := [None, None]);
    if Truthy(mi.applicationId) then cleared
    else cleared.(applicationId := Some(DummyApplicationId))
  }

  /** serialize_metadata_for */
  function SerializeMetadataFor<Opf>(env: Env<Opf>, paths: seq<string>, tdir: string, groupId: string)
    : (r: Serialized<Opf>)
    ensures r.mi == Stripped(env.extract(paths))
    ensures r.opf == env.toOpf(r.mi, DefaultLang)
    ensures r.hasCover <==> BytesTruthy(KeptCover(env.extract(paths)))
    ensures r.written.Some? <==> r.hasCover
    ensures r.hasCover ==> r.written == Some(CoverFile(
      PosixPath.Join(tdir, groupId + ".cdata"), KeptCover(env.extract(paths)).value))
  {
    var mi := env.extract(paths);
    var cdata := KeptCover(mi);
    var smi := Stripped(mi);
    var opf := env.toOpf(smi, DefaultLang);
    if BytesTruthy(cdata) then
      Serialized(smi, opf, true, Some(CoverFile(PosixPath.Join(tdir, groupId + ".cdata"), cdata.value)))
    else
      Serialized(smi, opf, false, None)
  }

  /** read_metadata_bulk */
  function ReadMetadataBulk<Opf>(env: Env<Opf>, getOpf: bool, getCover: bool, paths: seq<string>)
    : (r: Bulk<Opf>)
    ensures r.opf.Some? <==> getOpf
    ensures getOpf ==> r.opf.value == env.toOpf(Stripped(env.extract(paths)), DefaultLang)
    ensures !getCover ==> r.cdata == None
    ensures getCover ==> r.cdata == KeptCover(env.extract(paths))
  {
    var mi := env.extract(paths);
    var cdata := KeptCover(mi);
    var smi := Stripped(mi);
    Bulk(if getOpf then Some(env.toOpf(smi, DefaultLang)) else None,
         if getCover then cdata else None)
  }

  /** The two entry points strip the record the same way: the bulk reader's
      document is the one serialize_metadata_for builds, and it hands back
      a cover exactly when the other writes a cover file. */
  lemma BulkAgreesWithSerialize<Opf>(env: Env<Opf>, paths: seq<string>, tdir: string, groupId: string)
    ensures ReadMetadataBulk(env, true, true, paths).opf
      == Some(SerializeMetadataFor(env, paths, tdir, groupId).opf)
    ensures BytesTruthy(ReadMetadataBulk(env, true, true, paths).cdata)
      <==> SerializeMetadataFor(env, paths, tdir, groupId).hasCover
    ensures SerializeMetadataFor(env, paths, tdir, groupId).hasCover ==>
      SerializeMetadataFor(env, paths, tdir, groupId).written.value.data
        == ReadMetadataBulk(env, true, true, paths).cdata.value
  {
  }

  /** The file the plugin produced, when the worker takes it: the plugin
      returned a non-empty path that is readable and not the same file as
      the original. */
  function AcceptedTransform<Opf>(env: Env<Opf>, path: string): (r: Option<string>)
    ensures r.Some? <==> (env.plugin(path).Returned? && Truthy(env.plugin(path).nfp)
                          && env.readable(env.plugin(path).nfp.value)
                          && !env.sameFile(env.plugin(path).nfp.value, path))
    ensures r.Some? ==> r == env.plugin(path).nfp
  {
    match env.plugin(path)
    case Raised => None
    case Returned(nfp) =>
      if Truthy(nfp) && env.readable(nfp.value) && !env.sameFile(nfp.value, path) then nfp else None
  }

  /** `join(tdir, str(group_id), splitext(basename(path))[0] + splitext(nfp)[1])` */
  function Relocation(tdir: string, groupId: string, path: string, nfp: string): string {
    PosixPath.Join(PosixPath.Join(tdir, groupId),
                   PosixPath.Stem(PosixPath.Basename(path)) + PosixPath.Ext(nfp))
  }

  /** The path the worker keeps for a readable input. */
  function FinalPath<Opf>(env: Env<Opf>, tdir: string, groupId: string, path: string): (r: string)
    ensures env.plugin(path).Raised? ==> r == path
    ensures env.plugin(path).Returned? && !Truthy(env.plugin(path).nfp) ==> r == path
    ensures AcceptedTransform(env, path).None? ==> r == path
    ensures AcceptedTransform(env, path).Some? ==>
      r == Relocation(tdir, groupId, path, AcceptedTransform(env, path).value)
  {
    match AcceptedTransform(env, path)
    case None => path
    case Some(nfp) => Relocation(tdir, groupId, path, nfp)
  }

  /** The paths run_import_plugins returns for `paths`, defined by the
      prefix that its loop has consumed. */
  function ImportedPaths<Opf>(env: Env<Opf>, tdir: string, groupId: string, paths: seq<string>)
    : seq<string>
    decreases |paths|
  {
    if paths == [] then []
    else
      var init := ImportedPaths(env, tdir, groupId, paths[..|paths| - 1]);
      var last := paths[|paths| - 1];
      if env.readable(last) then init + [FinalPath(env, tdir, groupId, last)] else init
  }

  /** run_import_plugins */
  method RunImportPlugins<Opf>(env: Env<Opf>, paths: seq<string>, groupId: string, tdir: string)
    returns (finalPaths: seq<string>)
    ensures finalPaths == ImportedPaths(env, tdir, groupId, paths)
  {
    finalPaths := [];
    for i := 0 to |paths|
      invariant finalPaths == ImportedPaths(env, tdir, groupId, paths[..i])
    {
      var path := paths[i];
      assert paths[..i + 1][..i] == paths[..i];
      if !env.readable(path) {
        continue;
      }
      var nfp: Option<string>;
      match env.plugin(path) {
        case Raised => nfp := None;
        case Returned(p) => nfp := p;
      }
      if Truthy(nfp) && env.readable(nfp.value) && !env.sameFile(nfp.value, path) {
        var name := PosixPath.Stem(PosixPath.Basename(path));
        var ext := PosixPath.Ext(nfp.value);
        path := PosixPath.Join(PosixPath.Join(tdir, groupId), name + ext);
      }
      finalPaths := finalPaths + [path];
    }
    assert paths[..|paths|] == paths;
  }

  /** One output per readable input, in input order: the result for a
      concatenation is the concatenation of the results. */
  lemma {:induction false} ImportedConcat<Opf>(env: Env<Opf>, tdir: string, groupId: string,
                                               a: seq<string>, b: seq<string>)
    ensures ImportedPaths(env, tdir, groupId, a + b)
         == ImportedPaths(env, tdir, groupId, a) + ImportedPaths(env, tdir, groupId, b)
    decreases |b|
  {
    if b == [] {
      assert a + b == a;
    } else {
      var b' := b[..|b| - 1];
      assert (a + b)[..|a + b| - 1] == a + b';
      ImportedConcat(env, tdir, groupId, a, b');
    }
  }

  /** A single path is dropped when unreadable and otherwise yields exactly
      its final path. */
  lemma ImportedSingle<Opf>(env: Env<Opf>, tdir: string, groupId: string, p: string)
    ensures ImportedPaths(env, tdir, groupId, [p])
         == if env.readable(p) then [FinalPath(env, tdir, groupId, p)] else []
  {
    assert [p][..0] == [];
  }

  /** The number of readable paths. */
  function ReadableCount<Opf>(env: Env<Opf>, paths: seq<string>): (n: nat)
    ensures n <= |paths|
    decreases |paths|
  {
    if paths == [] then 0
    else ReadableCount(env, paths[..|paths| - 1]) + (if env.readable(paths[|paths| - 1]) then 1 else 0)
  }

  /** The output has one entry per readable input, so it is never longer
      than the input, and the k-th output comes from an input at or after
      position k. */
  lemma {:induction false} ImportedLength<Opf>(env: Env<Opf>, tdir: string, groupId: string, paths: seq<string>)
    ensures |ImportedPaths(env, tdir, groupId, paths)| == ReadableCount(env, paths) <= |paths|
    decreases |paths|
  {
    if paths != [] {
      ImportedLength(env, tdir, groupId, paths[..|paths| - 1]);
    }
  }

  /** A relocated file sits in `tdir/group_id/` and carries the original
      base name's stem with the new file's extension. */
  lemma RelocationShape(tdir: string, groupId: string, path: string, nfp: string)
    ensures PosixPath.Basename(Relocation(tdir, groupId, path, nfp))
         == PosixPath.Stem(PosixPath.Basename(path)) + PosixPath.Ext(nfp)
    ensures Text.StartsWith(Relocation(tdir, groupId, path, nfp), PosixPath.Join(tdir, groupId))
  {
    var base := PosixPath.Basename(path);
    var name := PosixPath.Stem(base) + PosixPath.Ext(nfp);
    assert PosixPath.Stem(base) + PosixPath.Ext(base) == base;
    assert '/' !in PosixPath.Stem(base) by {
      assert forall i :: 0 <= i < |PosixPath.Stem(base)| ==> PosixPath.Stem(base)[i] == base[i];
    }
    assert '/' !in name;
    BasenameOfJoin(PosixPath.Join(tdir, groupId), name);
  }

  lemma BasenameOfJoin(a: string, s: string)
    requires '/' !in s
    ensures PosixPath.Basename(PosixPath.Join(a, s)) == s
    ensures Text.StartsWith(PosixPath.Join(a, s), a)
  {
    var j := PosixPath.Join(a, s);
    if a == [] || a[|a| - 1] == '/' {
      assert j == a + s;
      if a != [] {
        assert j[|a| - 1] == '/';
        forall k | |a| <= k < |j| ensures j[k] != '/' { assert j[k] == s[k - |a|]; }
        PosixPath.RFindLast(j, '/', |a| - 1);
      } else {
        assert j == s;
        PosixPath.RFindNone(j, '/');
      }
      assert j[|a|..] == s;
      assert j[..|a|] == a;
    } else {
      assert j == a + "/" + s;
      assert j[|a|] == '/';
      forall k | |a| < k < |j| ensures j[k] != '/' { assert j[k] == s[k - |a| - 1]; }
      PosixPath.RFindLast(j, '/', |a|);
      assert j[|a| + 1..] == s;
      assert j[..|a|] == a;
    }
  }

  /** What has_book returns: the falsy title itself, or the membership
      test. */
  datatype HasBookValue = NoneValue | EmptyString | Bool(b: bool)

  predicate IsTruthy(v: HasBookValue) {
    v.Bool? && v.b
  }

  /** has_book */
  function HasBook<Opf>(env: Env<Opf>, mi: Metadata, known: set<string>): (r: HasBookValue)
    ensures mi.title == None ==> r == NoneValue
    ensures mi.title == Some([]) ==> r == EmptyString
    ensures Truthy(mi.title) ==> r == Bool(env.lower(Text.Strip(mi.title.value)) in known)
    ensures IsTruthy(r) <==> Truthy(mi.title) && env.lower(Text.Strip(mi.title.value)) in known
  {
    match mi.title
    case None => NoneValue
    case Some(t) => if t == [] then EmptyString else Bool(env.lower(Text.Strip(t)) in known)
  }

  /** A whitespace-only title is looked up as the lower-cased empty string. */
  lemma HasBookWhitespaceTitle<Opf>(env: Env<Opf>, mi: Metadata, known: set<string>)
    requires Truthy(mi.title) && Text.AllSpace(mi.title.value)
    ensures HasBook(env, mi, known) == Bool(env.lower([]) in known)
  {
    Text.StripAllSpace(mi.title.value);
  }

  /** The caller's `common_data`, by its Python type. */
  datatype CommonData = NotGiven | AsSet(titles: set<string>) | AsFrozenSet(titles: set<string>)
                      | AsOther(items: seq<string>)

  datatype ReadResult<Opf> = ReadResult(
    paths: seq<string>, opf: Opf, hasCover: bool, duplicateInfo: HasBookValue)

  /** read_metadata */
  method ReadMetadata<Opf>(env: Env<Opf>, paths: seq<string>, groupId: string, tdir: string,
                           commonData: CommonData)
    returns (r: ReadResult<Opf>, written: Option<CoverFile>)
    ensures r.paths == ImportedPaths(env, tdir, groupId, paths)
    ensures var s := SerializeMetadataFor(env, r.paths, tdir, groupId);
            r.opf == s.opf && r.hasCover == s.hasCover && written == s.written
    ensures (commonData.AsSet? || commonData.AsFrozenSet?) ==>
      r.duplicateInfo == HasBook(env, SerializeMetadataFor(env, r.paths, tdir, groupId).mi, commonData.titles)
    ensures !(commonData.AsSet? || commonData.AsFrozenSet?) ==> r.duplicateInfo == NoneValue
  {
    var final := RunImportPlugins(env, paths, groupId, tdir);
    var s := SerializeMetadataFor(env, final, tdir, groupId);
    var dup := NoneValue;
    if commonData.AsSet? || commonData.AsFrozenSet? {
      dup := HasBook(env, s.mi, commonData.titles);
    }
    r := ReadResult(final, s.opf, s.hasCover, dup);
    written := s.written;
  }
}
