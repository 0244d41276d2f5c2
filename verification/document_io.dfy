/**
 * Loading markdown documents: file information derived from the path, the front matter parsed
 * under an error policy, and a whole corpus loaded with per-file failure handling. The directory
 * listing and the file contents are inputs: a corpus is a sequence of (path, content) pairs.
 */
module DocumentIo {
  import opened Wrappers
  import opened Values
  import Text
  import PosixPath
  import Yfm

  /** What the loader derives from a path, with no access to the file system. */
  datatype FileInfo = FileInfo(
    filename: string,
    filepath: string,
    dirname: string,
    basename: string,
    fnext: string,
    fnroot: string,
    filenameNoext: string,
    filepathRoot: string,
    filepathNoext: string)

  /**
   * The file information of a path: the directory and last component from `os.path.split`, the
   * extension from `os.path.splitext` of the whole path, the root of the last component and of the
   * whole path, and the two aliases.
   */
  function FileInfoOf(path: string): (fi: FileInfo)
    ensures fi.filename == path && fi.filepath == path
    ensures fi.fnroot + fi.fnext == fi.basename
    ensures fi.filepathRoot + fi.fnext == path
    ensures fi.filenameNoext == fi.fnroot && fi.filepathNoext == fi.filepathRoot
    ensures |fi.basename| <= |path| && path[|path| - |fi.basename|..] == fi.basename
  {
    var (dirname, basename) := PosixPath.Split(path);
    var (fnroot, _) := PosixPath.SplitExt(basename);
    var (filepathRoot, fnext) := PosixPath.SplitExt(path);
    PosixPath.SplitExtOfTail(path);
    FileInfo(path, path, dirname, basename, fnext, fnroot, fnroot, filepathRoot, filepathRoot)
  }

  /** The base name holds no slash; the extension is empty or a dot followed by no slash and no dot. */
  lemma FileInfoNames(path: string)
    ensures var fi := FileInfoOf(path);
      && '/' !in fi.basename
      && (fi.fnext == [] || (fi.fnext[0] == '.' && '/' !in fi.fnext && '.' !in fi.fnext[1..]))
  {
    PosixPath.SplitTail(path);
    PosixPath.SplitExtShape(path);
  }

  /** The file information as the dict the loader builds, under its nine keys. */
  function FileInfoDict(fi: FileInfo): (d: map<string, Value>)
    ensures d.Keys == {"filename", "filepath", "dirname", "basename", "fnext", "fnroot",
                       "filename_noext", "filepath_root", "filepath_noext"}
  {
    map[
      "filename" := Str(fi.filename),
      "filepath" := Str(fi.filepath),
      "dirname" := Str(fi.dirname),
      "basename" := Str(fi.basename),
      "fnext" := Str(fi.fnext),
      "fnroot" := Str(fi.fnroot),
      "filename_noext" := Str(fi.filenameNoext),
      "filepath_root" := Str(fi.filepathRoot),
      "filepath_noext" := Str(fi.filepathNoext)]
  }

  /** A loaded document. `meta` is `Null` when there is no metadata. */
  datatype Document = Document(
    filename: string,
    fileinfo: FileInfo,
    rawContent: string,
    content: string,
    meta: Value)

  /** The document as the dict the loader returns. */
  function DocumentDict(doc: Document): (d: map<string, Value>)
    ensures d.Keys == {"filename", "fileinfo", "raw_content", "content", "meta"}
    ensures d["content"] == Str(doc.content) && d["meta"] == doc.meta
  {
    map[
      "filename" := Str(doc.filename),
      "fileinfo" := Mapping(FileInfoDict(doc.fileinfo)),
      "raw_content" := Str(doc.rawContent),
      "content" := Str(doc.content),
      "meta" := doc.meta]
  }

  /** The exceptions `load_document` lets out. */
  datatype LoadError =
      /** The front matter could not be split or parsed and the policy says raise. */
    | DocumentYfmError(msg: string, file: string, cause: Yfm.YfmError)
      /** The metadata is neither `None` nor a dict, so `update` raises AttributeError. */
    | MetaNotMapping(file: string)

  /**
   * `meta.update(fileinfo)`: every file-information key carries the file-information value, which
   * wins over a metadata key of the same name; every other metadata key is untouched.
   */
  function MergeFileInfo(meta: map<string, Value>, fi: FileInfo): (r: map<string, Value>)
    ensures r.Keys == meta.Keys + FileInfoDict(fi).Keys
    ensures forall k :: k in FileInfoDict(fi) ==> r[k] == FileInfoDict(fi)[k]
    ensures forall k :: k in meta && k !in FileInfoDict(fi) ==> r[k] == meta[k]
  {
    meta + FileInfoDict(fi)
  }

  /** The document built once metadata and content are known, with the file information merged in when asked. */
  function Assemble(path: string, raw: string, content: string, meta: Value, addFileinfoToMeta: bool)
    : (r: Result<Document, LoadError>)
    ensures r.Ok? ==> r.value.filename == path && r.value.fileinfo == FileInfoOf(path)
                      && r.value.rawContent == raw && r.value.content == content
    ensures !addFileinfoToMeta || meta == Null ==> r == Ok(Document(path, FileInfoOf(path), raw, content, meta))
    ensures addFileinfoToMeta && meta.Mapping? ==>
              r == Ok(Document(path, FileInfoOf(path), raw, content, Mapping(MergeFileInfo(meta.entries, FileInfoOf(path)))))
    ensures r.Err? <==> addFileinfoToMeta && meta != Null && !meta.Mapping?
    ensures r.Err? ==> r.error == MetaNotMapping(path)
  {
    var fi := FileInfoOf(path);
    if addFileinfoToMeta && meta != Null then
      match meta
      case Mapping(entries) => Ok(Document(path, fi, raw, content, Mapping(MergeFileInfo(entries, fi))))
      case _ => Err(MetaNotMapping(path))
    else
      Ok(Document(path, fi, raw, content, meta))
  }

  /**
   * What `load_document` makes of the outcome `parsed` of the front-matter parse: the parsed
   * metadata and body, or, on a failure, an exception when the policy `yfmErrors` contains
   * `"raise"` and otherwise the fallback metadata with the whole file as content.
   */
  function Loaded(path: string, raw: string, addFileinfoToMeta: bool, parsed: Result<(Value, string), Yfm.YfmError>,
                  yfmErrors: string, metaIfNoYfm: Value): Result<Document, LoadError>
  {
    match parsed
    case Ok((meta, body)) => Assemble(path, raw, body, meta, addFileinfoToMeta)
    case Err(cause) =>
      if Text.Contains(yfmErrors, "raise") then Err(DocumentYfmError("", path, cause))
      else Assemble(path, raw, raw, metaIfNoYfm, addFileinfoToMeta)
  }

  /**
   * `load_document` on a file whose content is `raw`. The front matter is parsed with the default
   * flags; a failure is reported when the policy `yfmErrors` contains `"warn"` or `"report"`, and
   * then handled by Loaded.
   */
  function LoadDocument(path: string, raw: string, addFileinfoToMeta: bool, yfmParsing: bool,
                        yfmErrors: string, metaIfNoYfm: Value, load: string -> Result<Value, string>)
    : (r: Diagnosed<Result<Document, LoadError>>)
    ensures !yfmParsing ==> r == Diagnosed(Ok(Document(path, FileInfoOf(path), raw, raw, Null)), false)
    ensures r.value.Ok? ==> r.value.value.filename == path && r.value.value.fileinfo == FileInfoOf(path)
                            && r.value.value.rawContent == raw
  {
    if !yfmParsing then
      Diagnosed(Assemble(path, raw, raw, Null, addFileinfoToMeta), false)
    else
      var parsed := Yfm.ParseYfm(raw, Str("raise"), true, load).value;
      var warned := parsed.Err? && (Text.Contains(yfmErrors, "warn") || Text.Contains(yfmErrors, "report"));
      Diagnosed(Loaded(path, raw, addFileinfoToMeta, parsed, yfmErrors, metaIfNoYfm), warned)
  }

  /** A warning is printed exactly when the front matter fails to parse and the policy mentions `"warn"` or `"report"`. */
  lemma LoadDocumentWarns(path: string, raw: string, addFileinfoToMeta: bool, yfmParsing: bool,
                          yfmErrors: string, metaIfNoYfm: Value, load: string -> Result<Value, string>)
    ensures LoadDocument(path, raw, addFileinfoToMeta, yfmParsing, yfmErrors, metaIfNoYfm, load).warned <==>
              && yfmParsing
              && Yfm.ParseYfm(raw, Str("raise"), true, load).value.Err?
              && (Text.Contains(yfmErrors, "warn") || Text.Contains(yfmErrors, "report"))
  {
  }

  /** A successful parse gives the parsed metadata (file information merged in when asked) and the unstripped body. */
  lemma LoadDocumentParsed(path: string, raw: string, addFileinfoToMeta: bool, yfmErrors: string,
                           metaIfNoYfm: Value, load: string -> Result<Value, string>, meta: Value, body: string)
    requires Yfm.ParseYfm(raw, Str("raise"), true, load).value == Ok((meta, body))
    ensures var r := LoadDocument(path, raw, addFileinfoToMeta, true, yfmErrors, metaIfNoYfm, load);
      && !r.warned
      && r.value == Assemble(path, raw, body, meta, addFileinfoToMeta)
      && (r.value.Ok? ==> r.value.value.content == body)
      && (!addFileinfoToMeta || !meta.Mapping? ==> r.value.Ok? ==> r.value.value.meta == meta)
      && (addFileinfoToMeta && meta.Mapping? ==>
            r.value.Ok? && r.value.value.meta == Mapping(MergeFileInfo(meta.entries, FileInfoOf(path))))
  {
  }

  /**
   * A file with a line of text before its front matter loads: its metadata is what the loader
   * makes of the front matter, and its content is the text after the second marker line.
   */
  lemma LoadDocumentNotedDocument(path: string, yfmErrors: string, metaIfNoYfm: Value,
                                  load: string -> Result<Value, string>, meta: Value)
    requires load("\nk: v\n") == Ok(meta)
    ensures LoadDocument(path, Yfm.NotedDocument, false, true, yfmErrors, metaIfNoYfm, load)
            == Diagnosed(Ok(Document(path, FileInfoOf(path), Yfm.NotedDocument, "\nbody", meta)), false)
  {
    Yfm.ParseYfmNotedDocument(load, meta);
  }

  /** A failure under a policy that contains `"raise"` becomes a DocumentYfmError naming the file and the cause. */
  lemma LoadDocumentRaises(path: string, raw: string, addFileinfoToMeta: bool, yfmErrors: string,
                           metaIfNoYfm: Value, load: string -> Result<Value, string>)
    requires Yfm.ParseYfm(raw, Str("raise"), true, load).value.Err?
    requires Text.Contains(yfmErrors, "raise")
    ensures LoadDocument(path, raw, addFileinfoToMeta, true, yfmErrors, metaIfNoYfm, load).value
            == Err(DocumentYfmError("", path, Yfm.ParseYfm(raw, Str("raise"), true, load).value.error))
  {
  }

  /** A failure under a policy without `"raise"` falls back to `metaIfNoYfm` and the whole file as content. */
  lemma LoadDocumentFallsBack(path: string, raw: string, addFileinfoToMeta: bool, yfmErrors: string,
                              metaIfNoYfm: Value, load: string -> Result<Value, string>)
    requires Yfm.ParseYfm(raw, Str("raise"), true, load).value.Err?
    requires !Text.Contains(yfmErrors, "raise")
    ensures var r := LoadDocument(path, raw, addFileinfoToMeta, true, yfmErrors, metaIfNoYfm, load);
      && r.value == Assemble(path, raw, raw, metaIfNoYfm, addFileinfoToMeta)
      && (r.value.Ok? ==> r.value.value.content == raw)
  {
  }

  /** Metadata that Assemble merges carries every file-information entry. */
  lemma AssembleCarriesFileInfo(path: string, raw: string, content: string, meta: Value)
    ensures var r := Assemble(path, raw, content, meta, true);
      r.Ok? && r.value.meta != Null ==>
        && r.value.meta.Mapping?
        && forall k :: k in FileInfoDict(FileInfoOf(path)) ==>
             k in r.value.meta.entries && r.value.meta.entries[k] == FileInfoDict(FileInfoOf(path))[k]
  {
    if meta.Mapping? {
      var merged := MergeFileInfo(meta.entries, FileInfoOf(path));
      assert Assemble(path, raw, content, meta, true) == Ok(Document(path, FileInfoOf(path), raw, content, Mapping(merged)));
    }
  }

  /** Whatever the parse gave, a document loaded with merged metadata carries the file information. */
  lemma LoadedCarriesFileInfo(path: string, raw: string, parsed: Result<(Value, string), Yfm.YfmError>,
                              yfmErrors: string, metaIfNoYfm: Value)
    ensures var r := Loaded(path, raw, true, parsed, yfmErrors, metaIfNoYfm);
      r.Ok? && r.value.meta != Null ==>
        && r.value.meta.Mapping?
        && forall k :: k in FileInfoDict(FileInfoOf(path)) ==>
             k in r.value.meta.entries && r.value.meta.entries[k] == FileInfoDict(FileInfoOf(path))[k]
  {
    match parsed
    case Ok((meta, body)) => AssembleCarriesFileInfo(path, raw, body, meta);
    case Err(_) => AssembleCarriesFileInfo(path, raw, raw, metaIfNoYfm);
  }

  /** Merged metadata keeps every key it had and adds the file information, which wins on a clash. */
  lemma LoadedMetaCarriesFileInfo(path: string, raw: string, yfmParsing: bool, yfmErrors: string,
                                  metaIfNoYfm: Value, load: string -> Result<Value, string>)
    ensures var r := LoadDocument(path, raw, true, yfmParsing, yfmErrors, metaIfNoYfm, load).value;
      r.Ok? && r.value.meta != Null ==>
        && r.value.meta.Mapping?
        && forall k :: k in FileInfoDict(FileInfoOf(path)) ==>
             k in r.value.meta.entries && r.value.meta.entries[k] == FileInfoDict(FileInfoOf(path))[k]
  {
    if yfmParsing {
      LoadedCarriesFileInfo(path, raw, Yfm.ParseYfm(raw, Str("raise"), true, load).value, yfmErrors, metaIfNoYfm);
    } else {
      AssembleCarriesFileInfo(path, raw, raw, Null);
    }
  }

  /** The keyword arguments of `load_all_documents`. */
  datatype CorpusPolicy = CorpusPolicy(
    addFileinfoToMeta: bool,
    excludeIfMissingYfm: bool,
    yfmParsing: bool,
    yfmErrors: string)

  /** The defaults of `load_all_documents`. */
  const DefaultCorpusPolicy := CorpusPolicy(true, true, true, "skip-file")

  /** What the corpus loader does with one file. */
  datatype Verdict = Keep(doc: Document) | Omit | Abort(error: LoadError)

  /**
   * One file of `load_all_documents`. Under `"skip-file"` the file is loaded with the default
   * `"raise"` policy, a DocumentYfmError omits it, and a document without metadata is kept even when
   * `excludeIfMissingYfm` is set. Under any other policy the policy is passed on, every error aborts
   * the load, and a document without metadata is kept only when `excludeIfMissingYfm` is unset.
   */
  function FileVerdict(file: (string, string), policy: CorpusPolicy, load: string -> Result<Value, string>)
    : (v: Verdict)
    ensures policy.yfmErrors == "skip-file" ==>
      var r := LoadDocument(file.0, file.1, policy.addFileinfoToMeta, policy.yfmParsing, "raise", Null, load).value;
      && (v.Keep? <==> r.Ok?)
      && (v.Keep? ==> v.doc == r.value)
      && (v.Omit? <==> r.Err? && r.error.DocumentYfmError?)
      && (v.Abort? ==> v.error == r.error)
    ensures policy.yfmErrors != "skip-file" ==>
      var r := LoadDocument(file.0, file.1, policy.addFileinfoToMeta, policy.yfmParsing, policy.yfmErrors, Null, load).value;
      && (v.Keep? <==> r.Ok? && (r.value.meta != Null || !policy.excludeIfMissingYfm))
      && (v.Keep? ==> v.doc == r.value)
      && (v.Abort? <==> r.Err?)
      && (v.Abort? ==> v.error == r.error)
  {
    var (path, raw) := file;
    if policy.yfmErrors == "skip-file" then
      match LoadDocument(path, raw, policy.addFileinfoToMeta, policy.yfmParsing, "raise", Null, load).value
      case Ok(doc) => Keep(doc)
      case Err(DocumentYfmError(_, _, _)) => Omit
      case Err(e) => Abort(e)
    else
      match LoadDocument(path, raw, policy.addFileinfoToMeta, policy.yfmParsing, policy.yfmErrors, Null, load).value
      case Ok(doc) => if doc.meta != Null || !policy.excludeIfMissingYfm then Keep(doc) else Omit
      case Err(e) => Abort(e)
  }

  /** The verdict on each file of a listing, in the listing's order. */
  function Verdicts(files: seq<(string, string)>, policy: CorpusPolicy, load: string -> Result<Value, string>)
    : (vs: seq<Verdict>)
    ensures |vs| == |files|
    ensures forall i :: 0 <= i < |files| ==> vs[i] == FileVerdict(files[i], policy, load)
  {
    seq(|files|, i requires 0 <= i < |files| => FileVerdict(files[i], policy, load))
  }

  /** The kept documents of a run of verdicts in order, or the error of the first Abort. */
  function Collect(vs: seq<Verdict>): Result<seq<Document>, LoadError>
    decreases |vs|
  {
    if vs == [] then Ok([])
    else
      match Collect(vs[..|vs| - 1])
      case Err(e) => Err(e)
      case Ok(docs) =>
        match vs[|vs| - 1]
        case Keep(doc) => Ok(docs + [doc])
        case Omit => Ok(docs)
        case Abort(e) => Err(e)
  }

  /** The documents of `load_all_documents` for the files in order, or the first error that escapes. */
  function LoadAll(files: seq<(string, string)>, policy: CorpusPolicy, load: string -> Result<Value, string>)
    : Result<seq<Document>, LoadError>
  {
    Collect(Verdicts(files, policy, load))
  }

  /** Once a prefix of the verdicts has failed, the whole run fails with the same error. */
  lemma {:induction false} CollectErrorPersists(vs: seq<Verdict>, n: nat)
    requires n <= |vs|
    requires Collect(vs[..n]).Err?
    ensures Collect(vs) == Collect(vs[..n])
    decreases |vs| - n
  {
    if n < |vs| {
      assert vs[..n + 1][..n] == vs[..n];
      CollectErrorPersists(vs, n + 1);
    } else {
      assert vs[..n] == vs;
    }
  }

  /** The positions of the Keep verdicts, in increasing order. */
  ghost function KeptPositions(vs: seq<Verdict>): (idx: seq<nat>)
    ensures forall k :: 0 <= k < |idx| ==> idx[k] < |vs| && vs[idx[k]].Keep?
    ensures forall k, l :: 0 <= k < l < |idx| ==> idx[k] < idx[l]
    ensures forall i :: 0 <= i < |vs| && vs[i].Keep? ==> i in idx
    decreases |vs|
  {
    if vs == [] then []
    else
      var rest := KeptPositions(vs[..|vs| - 1]);
      if vs[|vs| - 1].Keep? then rest + [|vs| - 1] else rest
  }

  /**
   * Without an Abort the run succeeds with one document per Keep verdict, in order: the k-th
   * document is the one the k-th Keep verdict holds.
   */
  lemma {:induction false} CollectKeepsInOrder(vs: seq<Verdict>)
    requires forall i :: 0 <= i < |vs| ==> !vs[i].Abort?
    ensures var r, idx := Collect(vs), KeptPositions(vs);
      && r.Ok?
      && |r.value| == |idx|
      && forall k :: 0 <= k < |idx| ==> vs[idx[k]] == Keep(r.value[k])
    decreases |vs|
  {
    if vs != [] {
      CollectKeepsInOrder(vs[..|vs| - 1]);
    }
  }

  /** The first Abort decides the error of the whole run. */
  lemma CollectStopsAtFirstAbort(vs: seq<Verdict>, i: nat)
    requires i < |vs| && vs[i].Abort?
    requires forall j :: 0 <= j < i ==> !vs[j].Abort?
    ensures Collect(vs) == Err(vs[i].error)
  {
    CollectKeepsInOrder(vs[..i]);
    assert vs[..i + 1][..i] == vs[..i];
    CollectErrorPersists(vs, i + 1);
  }

  /** A successful run holds only documents some Keep verdict holds. */
  lemma {:induction false} CollectKeepsOnlyKept(vs: seq<Verdict>, d: Document)
    requires Collect(vs).Ok? && d in Collect(vs).value
    ensures Keep(d) in vs
    decreases |vs|
  {
    var front := vs[..|vs| - 1];
    if d in Collect(front).value {
      CollectKeepsOnlyKept(front, d);
    }
  }

  /**
   * As written, the default corpus load omits the conventional document (front matter between two
   * marker lines at the top of the file): its empty leading text is refused, and the refusal is a
   * DocumentYfmError that `"skip-file"` swallows.
   */
  lemma ConventionalDocumentOmitted(path: string, load: string -> Result<Value, string>)
    ensures FileVerdict((path, Yfm.ConventionalDocument), DefaultCorpusPolicy, load) == Omit
  {
    var raw := Yfm.ConventionalDocument;
    Yfm.ConventionalDocumentRefused();
    assert Yfm.ParseYfm(raw, Str("raise"), true, load).value.Err?;
    LoadDocumentRaises(path, raw, true, "raise", Null, load);
  }

  /**
   * Outside `"skip-file"`, with `excludeIfMissingYfm` set, every document the corpus load returns
   * has metadata.
   */
  lemma ExcludingLoadHasMetadata(files: seq<(string, string)>, policy: CorpusPolicy,
                                 load: string -> Result<Value, string>, d: Document)
    requires policy.yfmErrors != "skip-file" && policy.excludeIfMissingYfm
    requires LoadAll(files, policy, load).Ok? && d in LoadAll(files, policy, load).value
    ensures d.meta != Null
  {
    CollectKeepsOnlyKept(Verdicts(files, policy, load), d);
  }

  /**
   * `load_all_documents` over a listing given as (path, content) pairs, in the listing's order:
   * the documents the per-file verdicts keep, or the first error no policy absorbs.
   */
  method LoadAllDocuments(files: seq<(string, string)>, policy: CorpusPolicy, load: string -> Result<Value, string>)
    returns (r: Result<seq<Document>, LoadError>)
    ensures r == LoadAll(files, policy, load)
  {
    ghost var vs := Verdicts(files, policy, load);
    var documents: seq<Document> := [];
    var i := 0;
    while i < |files|
      invariant 0 <= i <= |files|
      invariant Collect(vs[..i]) == Ok(documents)
    {
      assert vs[..i + 1][..i] == vs[..i];
      var verdict := FileVerdict(files[i], policy, load);
      match verdict {
        case Keep(doc) =>
          documents := documents + [doc];
        case Omit =>
        case Abort(e) =>
          CollectErrorPersists(vs, i + 1);
          return Err(e);
      }
      i := i + 1;
    }
    assert vs[..i] == vs;
    return Ok(documents);
  }

  /** `load_all_documents_metadata`: the metadata of each loaded document, same number and order. */
  method LoadAllDocumentsMetadata(files: seq<(string, string)>, policy: CorpusPolicy, load: string -> Result<Value, string>)
    returns (r: Result<seq<Value>, LoadError>)
    ensures LoadAll(files, policy, load).Err? ==> r == Err(LoadAll(files, policy, load).error)
    ensures LoadAll(files, policy, load).Ok? ==>
      && r.Ok?
      && |r.value| == |LoadAll(files, policy, load).value|
      && forall k :: 0 <= k < |r.value| ==> r.value[k] == LoadAll(files, policy, load).value[k].meta
  {
    var documents := LoadAllDocuments(files, policy, load);
    if documents.Err? {
      return Err(documents.error);
    }
    var docs := documents.value;
    return Ok(seq(|docs|, k requires 0 <= k < |docs| => docs[k].meta));
  }
}
