# zepto-eln document core in Dafny

A model of the document core of zepto-eln, an electronic lab notebook that keeps its journals as
markdown files with YAML front matter. The model covers three parts, and proves properties of each:

- **Front matter** (`zepto_eln/md_utils/yfm.py`):
  - `split_yfm` cuts a text at most twice on the boundary marker `^-{3,}$` (multi-line mode), the
    way `re.split(pattern, text, 2)` does;
  - `parse_yfm` hands the front matter to a YAML loader.
- **Documents** (`zepto_eln/md_utils/document_io.py`):
  - `load_document` derives the file information from the path (`os.path.split`,
    `os.path.splitext`) and parses the front matter under an error policy;
  - it optionally merges the file information into the metadata;
  - `load_all_documents` and `load_all_documents_metadata` load a whole listing with per-file
    failure handling.
- **Pico variables** (`zepto_eln/md_utils/pico_utils.py`):
  - finding `%var.path%` placeholders;
  - resolving a dotted name in nested dicts (`get_attrs_string_value`);
  - replacing each placeholder under an `errors` policy, for a text and for a loaded document.

Modules:

| module | holds |
|---|---|
| `Wrappers` | `Option`, `Result`, and `Diagnosed`, a result paired with whether a warning was printed |
| `Values` | the values a YAML safe loader produces, and Python truthiness |
| `Text` | the `str` operations used: `in`, `strip`, `split`, `replace`; `Join` (Python's `str.join`, which the core itself never calls) only serves to specify `split` and `replace` |
| `PosixPath` | `os.path.split` and `os.path.splitext` |
| `Yfm` | the front-matter code |
| `DocumentIo` | the loaders |
| `Pico` | the variable substitution |

Operations that work by recursion and expressions are functions. Their properties are lemmas.
Code whose loop updates variables is a method, checked against a function that specifies it:

- the corpus loop: `LoadAllDocuments` against `LoadAll`;
- the substitution loop over a set: `SubstituteEach` against `SubstituteOrdered`.

Where the documentation and the code disagree, the model follows the code:

- **Blank leading text.** With two marker lines and `require_empty_pre` set, `split_yfm` raises
  when the text before the first marker is *blank*. The test is `if not pre.strip()` at
  `yfm.py:65`. The docstring and the error message describe the opposite: they reject *non-empty*
  leading text.
  - As written, the conventional document `---\nkey: value\n---\nbody` is refused under the
    default flags (`Yfm.ConventionalDocumentRefused`).
  - The default corpus load therefore silently omits it (`DocumentIo.ConventionalDocumentOmitted`).
- **Body not stripped.** `parse_yfm` says it returns stripped content. It returns the body
  verbatim, including the newline that ends the marker line.
- **Exclusion and `"skip-file"`.** Under `"skip-file"`, `load_all_documents` keeps a document
  without metadata even when `exclude_if_missing_yfm` is set. Exclusion applies only under the
  other policies.
- **Policies are substring tests.** The `yfm_errors` checks at `document_io.py:93-95` test
  whether the policy string *contains* `"warn"`, `"report"` or `"raise"`. The policy is not
  compared for equality.

## Model

| member | source | states |
|---|---|---|
| `Text.Contains` | zepto_eln/md_utils/document_io.py:93-95 | `needle in hay` holds exactly when the needle occurs at some index of the text |
| `Text.LStrip` | zepto_eln/md_utils/pico_utils.py:72 | the result is a suffix; every character cut is dropped; the first kept one is not |
| `Text.RStrip` | zepto_eln/md_utils/pico_utils.py:72 | the result is a prefix; every character cut is dropped; the last kept one is not |
| `Text.Strip` | zepto_eln/md_utils/yfm.py:65 | the result is empty exactly when every character is dropped; otherwise it neither starts nor ends with one; it occurs in the text |
| `Text.LStripAt` | zepto_eln/md_utils/pico_utils.py:72 | left strip cuts exactly the leading run of dropped characters |
| `Text.RStripAt` | zepto_eln/md_utils/pico_utils.py:72 | right strip cuts exactly the trailing run of dropped characters |
| `Text.RStripSuffixAt` | zepto_eln/md_utils/pico_utils.py:72 | right strip of a suffix keeps the slice up to the last kept character |
| `Text.StripSlice` | zepto_eln/md_utils/pico_utils.py:72 | strip keeps exactly the slice from the first to the last kept character |
| `Text.SplitOn` | zepto_eln/md_utils/pico_utils.py:43-44 | `str.split` gives at least one piece, so `key, *rest = attrs` always unpacks |
| `Text.SplitOnFirstPiece` | zepto_eln/md_utils/pico_utils.py:43 | the first piece is the text before the leftmost occurrence of the separator |
| `Text.SplitOnJoin` | zepto_eln/md_utils/pico_utils.py:43 | joining the pieces with the separator gives the text back |
| `Text.SplitOnPiecesAvoid` | zepto_eln/md_utils/pico_utils.py:43 | no piece contains the separator |
| `Text.SplitOnAbsent` | zepto_eln/md_utils/pico_utils.py:43 | a text without the separator is a single piece |
| `Text.SplitOnFirst` | zepto_eln/md_utils/pico_utils.py:43-44 | cutting at a one-character separator gives the text before its first occurrence, then the rest cut |
| `Text.Replace` | zepto_eln/md_utils/pico_utils.py:88 | defines `str.replace`: leftmost, non-overlapping occurrences, left to right; ReplaceIsSplitJoin, ReplaceSelf and ReplaceAbsent state its contract |
| `Text.ReplaceIsSplitJoin` | zepto_eln/md_utils/pico_utils.py:88 | `replace` is split at the occurrences, then join with the replacement |
| `Text.ReplaceSelf` | zepto_eln/md_utils/pico_utils.py:88 | replacing a string by itself changes nothing |
| `Text.ReplaceAbsent` | zepto_eln/md_utils/pico_utils.py:88 | a text in which the target does not occur is unchanged |
| `PosixPath.RFindBefore` | zepto_eln/md_utils/document_io.py:67-69 | the index lies before the bound and holds the character, or is -1 |
| `PosixPath.RFind` | zepto_eln/md_utils/document_io.py:67-69 | `rfind` gives -1 or an index of the character |
| `PosixPath.RFindBeforeIsLast` | zepto_eln/md_utils/document_io.py:67-69 | no occurrence of the character comes between the found index and the bound |
| `PosixPath.RFindIsLast` | zepto_eln/md_utils/document_io.py:67-69 | `rfind` finds the last occurrence |
| `PosixPath.RFindSuffix` | zepto_eln/md_utils/document_io.py:67-69 | the last occurrence in a suffix is the last occurrence in the text, moved, if it lies in the suffix |
| `PosixPath.Split` | zepto_eln/md_utils/document_io.py:67 | head, some slashes and tail concatenate to the path; the tail is everything after the last slash |
| `PosixPath.SplitTail` | zepto_eln/md_utils/document_io.py:67 | the tail holds no slash |
| `PosixPath.SplitHead` | zepto_eln/md_utils/document_io.py:67 | only slashes lie between head and tail; the head ends with a slash only if it is all slashes |
| `PosixPath.SplitExt` | zepto_eln/md_utils/document_io.py:68-69 | root followed by extension is the path |
| `PosixPath.SplitExtShape` | zepto_eln/md_utils/document_io.py:68-69 | the extension is empty or a dot followed by neither slash nor dot |
| `PosixPath.SplitExtOfTail` | zepto_eln/md_utils/document_io.py:67-69 | the extension of the path is that of its base name; the path root is the directory part followed by the base-name root |
| `PosixPath.HasNonDotSuffix` | zepto_eln/md_utils/document_io.py:68-69 | whether a stretch holds a non-dot character does not depend on where the text starts |
| `PosixPath.SplitExtAt` | zepto_eln/md_utils/document_io.py:68-69 | the shape of `splitext` once the last slash and the last dot are known |
| `PosixPath.SplitExtOfSuffix` | zepto_eln/md_utils/document_io.py:68-69 | `splitext` of the text after the last slash cuts where `splitext` of the path does |
| `PosixPath.SplitExtAfterLastSlash` | zepto_eln/md_utils/document_io.py:68-69 | the same extension, and the root preceded by the directory part |
| `Yfm.IsMarker` | zepto_eln/md_utils/yfm.py:20 | defines a match of `^-{3,}$` under `re.MULTILINE`: three or more `-` filling a whole line; MarkerAtFinds and SearchFinds state that the matcher finds exactly these |
| `Yfm.DashRun` | zepto_eln/md_utils/yfm.py:20 | the run of `-` ends at the end of the text or at a character other than `-` |
| `Yfm.DashRunDashes` | zepto_eln/md_utils/yfm.py:20 | the run holds only dashes |
| `Yfm.MarkerEndsAtDashRun` | zepto_eln/md_utils/yfm.py:20 | a marker line ends where its dash run ends, so a match at a position is unique |
| `Yfm.MarkerAt` | zepto_eln/md_utils/yfm.py:20 | the matcher at one position: the end of the maximal dash run when it fills a line of three or more; MarkerAtFinds states it is sound and complete |
| `Yfm.MarkerAtFinds` | zepto_eln/md_utils/yfm.py:20 | the matcher finds the marker line at a position, and finds none where none starts |
| `Yfm.Search` | zepto_eln/md_utils/yfm.py:50 | a found match lies at or after the starting position |
| `Yfm.SearchFinds` | zepto_eln/md_utils/yfm.py:50 | the match found is a marker line, the leftmost one; nothing found means there is none |
| `Yfm.NoMarkerInside` | zepto_eln/md_utils/yfm.py:20 | no marker line starts inside another one or right at its end |
| `Yfm.SplitMatches` | zepto_eln/md_utils/yfm.py:50 | at most two cuts, in order and within the text |
| `Yfm.SplitMatchesAreMarkers` | zepto_eln/md_utils/yfm.py:50 | the cuts are marker lines; the second starts after the first ends |
| `Yfm.RegexSplit` | zepto_eln/md_utils/yfm.py:50 | one more piece than cuts |
| `Yfm.MatchedTexts` | zepto_eln/md_utils/yfm.py:50 | one matched text per cut |
| `Yfm.MatchedTextsAreDashes` | zepto_eln/md_utils/yfm.py:20 | each matched text is three or more `-` |
| `Yfm.InterleaveOneCut` | zepto_eln/md_utils/yfm.py:50 | cutting out one slice and putting it back gives the text |
| `Yfm.InterleaveTwoCuts` | zepto_eln/md_utils/yfm.py:50 | cutting out two slices and putting them back gives the text |
| `Yfm.RegexSplitReassembles` | zepto_eln/md_utils/yfm.py:50 | the split is lossless: pieces interleaved with the matched markers give the text; at most three pieces |
| `Yfm.RegexSplitCount` | zepto_eln/md_utils/yfm.py:50-63 | one, two or three pieces exactly when the text has no, exactly one, or two or more marker lines |
| `Yfm.SplitYfm` | zepto_eln/md_utils/yfm.py:55-58 | a warning is printed exactly when there is one marker and the flag is `'warn'` |
| `Yfm.SplitYfmNoMarker` | zepto_eln/md_utils/yfm.py:52-54 | without a marker line the split raises, whatever the flags |
| `Yfm.SplitYfmSingleMarker` | zepto_eln/md_utils/yfm.py:55-61 | with one marker, a truthy flag other than `'warn'` raises; otherwise (text before, text after) is returned, with a warning under `'warn'` |
| `Yfm.TwoMarkerMatches` | zepto_eln/md_utils/yfm.py:50 | with two or more marker lines the split cuts at the first two |
| `Yfm.SplitYfmTwoMarkers` | zepto_eln/md_utils/yfm.py:62-68 | with two or more markers the result is (text between the first two, rest after the second); it raises exactly when `require_empty_pre` is set and the leading text is blank |
| `Yfm.SplitYfmTwoMarkersLenient` | zepto_eln/md_utils/yfm.py:64 | without `require_empty_pre`, two markers always split |
| `Yfm.ParseYfm` | zepto_eln/md_utils/yfm.py:134-138 | split errors come back unchanged, with the split's warning; once the split succeeds, a successful load gives (loaded front matter, the split's body) and a failed load gives YamlSyntaxError with the loader's message; any success comes from a successful split and load |
| `Yfm.ParseYfmBodyFollowsMarker` | zepto_eln/md_utils/yfm.py:134-138 | on success the body is exactly the text after a marker line, not stripped |
| `Yfm.NotedDocumentMarkers` | zepto_eln/md_utils/yfm.py:20 | the document `note\n---\nk: v\n---\nbody` has exactly two marker lines |
| `Yfm.ParseYfmNotedDocument` | zepto_eln/md_utils/yfm.py:134-138 | under the default flags that document parses to (what the loader makes of `\nk: v\n`, `\nbody`), without a warning |
| `Yfm.ConventionalDocumentInnerLines` | zepto_eln/md_utils/yfm.py:20 | no marker line starts between the two markers of the conventional document |
| `Yfm.ConventionalDocumentRefused` | zepto_eln/md_utils/yfm.py:64-67 | under the default flags the conventional document is refused for its empty leading text |
| `DocumentIo.FileInfoOf` | zepto_eln/md_utils/document_io.py:67-78 | root + extension is the base name; path root + extension is the path; the aliases agree; the base name ends the path |
| `DocumentIo.FileInfoNames` | zepto_eln/md_utils/document_io.py:67-69 | the base name holds no slash; the extension is empty or a dot then no slash and no dot |
| `DocumentIo.FileInfoDict` | zepto_eln/md_utils/document_io.py:70-78 | the file information has exactly its nine keys |
| `DocumentIo.DocumentDict` | zepto_eln/md_utils/document_io.py:105-116 | the document has exactly its five keys; `content` and `meta` hold the content and metadata |
| `DocumentIo.MergeFileInfo` | zepto_eln/md_utils/document_io.py:103-104 | `update`: keys are the union; file information wins a clash; other metadata keys are untouched |
| `DocumentIo.Assemble` | zepto_eln/md_utils/document_io.py:103-116 | metadata is merged only when asked and not None; a non-dict raises AttributeError; the other fields come from the path and the inputs |
| `DocumentIo.Loaded` | zepto_eln/md_utils/document_io.py:84-116 | what `load_document` makes of a parse outcome; LoadedCarriesFileInfo and the LoadDocument lemmas state its cases |
| `DocumentIo.LoadDocument` | zepto_eln/md_utils/document_io.py:44-116 | without parsing, the content is the whole file and there is no metadata; any loaded document carries its path, file information and raw content |
| `DocumentIo.LoadDocumentWarns` | zepto_eln/md_utils/document_io.py:93-94 | a warning is printed exactly when the parse fails and the policy contains `"warn"` or `"report"` |
| `DocumentIo.LoadDocumentParsed` | zepto_eln/md_utils/document_io.py:84-116 | a successful parse prints nothing and gives exactly Assemble of the body and the parsed metadata: the metadata as parsed without merging or when None, merged with the file information for a dict, AttributeError for any other value |
| `DocumentIo.LoadDocumentNotedDocument` | zepto_eln/md_utils/document_io.py:84-116 | a file `note\n---\nk: v\n---\nbody` loads with the loader's metadata and content `\nbody` |
| `DocumentIo.LoadDocumentRaises` | zepto_eln/md_utils/document_io.py:95-96 | a failed parse under a policy containing `"raise"` raises DocumentYfmError with the file and the cause |
| `DocumentIo.LoadDocumentFallsBack` | zepto_eln/md_utils/document_io.py:97-99 | otherwise the fallback metadata is used and the content is the whole file |
| `DocumentIo.AssembleCarriesFileInfo` | zepto_eln/md_utils/document_io.py:103-104 | merged metadata carries every file-information entry |
| `DocumentIo.LoadedCarriesFileInfo` | zepto_eln/md_utils/document_io.py:84-104 | whatever the parse gave, merged metadata carries every file-information entry |
| `DocumentIo.LoadedMetaCarriesFileInfo` | zepto_eln/md_utils/document_io.py:84-104 | with merging on, any non-None metadata of a loaded document is a dict holding every file-information entry |
| `DocumentIo.FileVerdict` | zepto_eln/md_utils/document_io.py:134-147 | under `"skip-file"` a document is kept iff it loads, omitted iff it raises DocumentYfmError, and any other error (the AttributeError of `update`) aborts with that error; otherwise it is kept iff it loads and has metadata or exclusion is off, and every error aborts |
| `DocumentIo.Verdicts` | zepto_eln/md_utils/document_io.py:134 | one verdict per file, in listing order |
| `DocumentIo.Collect` | zepto_eln/md_utils/document_io.py:133-148 | the loop's outcome over a run of verdicts; CollectErrorPersists, CollectKeepsInOrder, CollectStopsAtFirstAbort and CollectKeepsOnlyKept state its contract |
| `DocumentIo.LoadAll` | zepto_eln/md_utils/document_io.py:119-148 | `load_all_documents` as a function of the listing: Collect over the verdicts; LoadAllDocuments is proved equal to it |
| `DocumentIo.CollectErrorPersists` | zepto_eln/md_utils/document_io.py:143-145 | once a file aborts, the whole load fails with that error |
| `DocumentIo.KeptPositions` | zepto_eln/md_utils/document_io.py:134-147 | the positions of the kept files, increasing, all of them |
| `DocumentIo.CollectKeepsInOrder` | zepto_eln/md_utils/document_io.py:133-148 | without an abort the result holds one document per kept file, in listing order |
| `DocumentIo.CollectStopsAtFirstAbort` | zepto_eln/md_utils/document_io.py:143-145 | the first aborting file decides the error |
| `DocumentIo.CollectKeepsOnlyKept` | zepto_eln/md_utils/document_io.py:141-147 | every document returned was kept by some file's verdict |
| `DocumentIo.ConventionalDocumentOmitted` | zepto_eln/md_utils/document_io.py:135-139 | under the default corpus policy the conventional document is silently omitted |
| `DocumentIo.ExcludingLoadHasMetadata` | zepto_eln/md_utils/document_io.py:146-147 | outside `"skip-file"` with exclusion on, every returned document has metadata |
| `DocumentIo.LoadAllDocuments` | zepto_eln/md_utils/document_io.py:119-148 | the loop returns what the per-file verdicts give: the kept documents in order, or the first error |
| `DocumentIo.LoadAllDocumentsMetadata` | zepto_eln/md_utils/document_io.py:151-171 | the metadata of each loaded document, same number and order, or the load's error |
| `Pico.PlaceholderAt` | zepto_eln/md_utils/pico_utils.py:15 | defines a match of `%[\w.]+%`: a percent sign, one or more word characters or dots, a percent sign; MatchAt, MatchAtUnique and ScanCovers state that the scan finds these |
| `Pico.VarRun` | zepto_eln/md_utils/pico_utils.py:15 | the run of `[\w.]` characters is maximal |
| `Pico.MatchAt` | zepto_eln/md_utils/pico_utils.py:15 | a reported match is a placeholder at that position |
| `Pico.MatchAtUnique` | zepto_eln/md_utils/pico_utils.py:15 | a placeholder at a position is the one reported there |
| `Pico.Scan` | zepto_eln/md_utils/pico_utils.py:19 | `findall` reports placeholders from the start position on, without overlap and in order |
| `Pico.ScanCovers` | zepto_eln/md_utils/pico_utils.py:19 | every position where the pattern matches lies inside a reported match |
| `Pico.ScanText` | zepto_eln/md_utils/pico_utils.py:19 | each reported text is a placeholder occurring at its position |
| `Pico.ScanEmpty` | zepto_eln/md_utils/pico_utils.py:19 | nothing is reported exactly when the pattern matches nowhere |
| `Pico.Texts` | zepto_eln/md_utils/pico_utils.py:19 | the texts of the matches, one per match |
| `Pico.FindAll` | zepto_eln/md_utils/pico_utils.py:19 | empty exactly when the pattern matches nowhere |
| `Pico.PicoFindVariablePlaceholders` | zepto_eln/md_utils/pico_utils.py:15-21 | empty exactly when the content has no placeholder |
| `Pico.PlaceholdersFound` | zepto_eln/md_utils/pico_utils.py:19-21 | the set holds exactly the texts `findall` returns; each is a placeholder contained in the content |
| `Pico.Distinct` | zepto_eln/md_utils/pico_utils.py:21 | `set(res)` holds exactly the elements of the list |
| `Pico.GetAttrs` | zepto_eln/md_utils/pico_utils.py:44-57 | `get_attrs_string_value` on a list of keys; GetAttrsErrors, GetAttrsDefault and GetAttrsConcat state its contract |
| `Pico.GetAttrsStringValue` | zepto_eln/md_utils/pico_utils.py:42-57 | a dotted name is cut at every dot and resolved as a list; GetAttrsStringValueKey, GetAttrsStringValueDotted and GetAttrsStringValueExample state its contract |
| `Pico.GetAttrsErrors` | zepto_eln/md_utils/pico_utils.py:44-53 | only KeyError or AttributeError naming a key of the path; never KeyError with a default |
| `Pico.GetAttrsDefault` | zepto_eln/md_utils/pico_utils.py:49-51 | a default replaces a KeyError and changes nothing else |
| `Pico.GetAttrsConcat` | zepto_eln/md_utils/pico_utils.py:54-55 | a resolved prefix of the path continues in its value |
| `Pico.GetAttrsStringValueKey` | zepto_eln/md_utils/pico_utils.py:42-57 | a name without a dot is one dict lookup: the value, the default, KeyError or AttributeError |
| `Pico.GetAttrsStringValueDotted` | zepto_eln/md_utils/pico_utils.py:42-55 | `key.rest` resolves `rest` in the value under `key` |
| `Pico.GetAttrsStringValueExample` | zepto_eln/md_utils/pico_utils.py:37-39 | the documented example resolves `'h.e.j'` to `'word'` |
| `Pico.VarName` | zepto_eln/md_utils/pico_utils.py:72 | `placeholder.strip('%')`; VarNameOfPlaceholder states what it gives |
| `Pico.VarNameOfPlaceholder` | zepto_eln/md_utils/pico_utils.py:72 | the variable name is the text between the two percent signs |
| `Pico.Resolver` | zepto_eln/md_utils/pico_utils.py:72-74 | the lookup of a placeholder: its variable name resolved in the variables without a default; ResolverErrors states how it can fail |
| `Pico.ResolverErrors` | zepto_eln/md_utils/pico_utils.py:74 | a lookup fails only with KeyError or AttributeError |
| `Pico.Escapes` | zepto_eln/md_utils/pico_utils.py:73-84 | a lookup error the policy lets out: anything but a KeyError, or a KeyError under a policy other than `'print'` and `'pass'` |
| `Pico.EscapedError` | zepto_eln/md_utils/pico_utils.py:77-84 | the exception that escapes: the KeyError under `'raise'`, ValueError under an unrecognized policy, any other error itself |
| `Pico.Step` | zepto_eln/md_utils/pico_utils.py:73-88 | one turn raises exactly when the lookup's error escapes the policy, with that error; a tolerated miss leaves the content as it was |
| `Pico.StepResolved` | zepto_eln/md_utils/pico_utils.py:85-88 | a turn whose lookup succeeds returns the content with the placeholder replaced by its formatted value |
| `Pico.StepReplacesEveryOccurrence` | zepto_eln/md_utils/pico_utils.py:85-88 | that replacement cuts the content at every occurrence of the placeholder, leaves no occurrence in any piece, and puts the formatted value where each occurrence stood |
| `Pico.SubstituteOrdered` | zepto_eln/md_utils/pico_utils.py:70-89 | the loop for a given iteration order: one Step per placeholder until one raises; SubstituteFails, SubstituteResolvedReplaces and SubstituteUnresolvedKeepsContent state its contract |
| `Pico.ReplaceChain` | zepto_eln/md_utils/pico_utils.py:70-88 | reference definition: the placeholders replaced one after the other, first to last, each by its formatted value |
| `Pico.ReplaceChainSnoc` | zepto_eln/md_utils/pico_utils.py:70-88 | the chain over one more placeholder is one more replacement at its end |
| `Pico.SubstituteResolvedReplaces` | zepto_eln/md_utils/pico_utils.py:70-89 | when every placeholder resolves, the loop never raises and returns the content with each placeholder replaced in turn by its formatted value |
| `Pico.SubstituteErrorPersists` | zepto_eln/md_utils/pico_utils.py:77-84 | once a turn raises, the loop ends with that error |
| `Pico.FirstEscape` | zepto_eln/md_utils/pico_utils.py:70-84 | the first placeholder whose error escapes, and none before it does |
| `Pico.SubstituteFails` | zepto_eln/md_utils/pico_utils.py:70-88 | the loop fails exactly when some placeholder escapes, with the first one's error |
| `Pico.SubstituteUnresolvedKeepsContent` | zepto_eln/md_utils/pico_utils.py:75-82 | when no placeholder resolves and misses are tolerated, the content is unchanged |
| `Pico.SubstituteTolerantFailsOnlyOnAttribute` | zepto_eln/md_utils/pico_utils.py:79-82 | under `'print'` and `'pass'` only AttributeError escapes |
| `Pico.Enumeration` | zepto_eln/md_utils/pico_utils.py:70 | every set has an iteration order listing each element once |
| `Pico.EnumeratesConcat` | zepto_eln/md_utils/pico_utils.py:70 | orders of two disjoint sets, one after the other, enumerate the union |
| `Pico.SubstituteExtend` | zepto_eln/md_utils/pico_utils.py:70-88 | one more turn extends the order and applies one step |
| `Pico.SubstituteAbort` | zepto_eln/md_utils/pico_utils.py:77-84 | a failing turn fails the loop for any order of the remaining placeholders |
| `Pico.SubstituteFailsOnSet` | zepto_eln/md_utils/pico_utils.py:70-88 | over any iteration order the loop fails exactly when some placeholder of the set escapes, with one such error |
| `Pico.SubstituteEach` | zepto_eln/md_utils/pico_utils.py:70-88 | the loop handles each placeholder once in some iteration order and returns the loop's result for that order; whatever the order, it fails exactly when some placeholder's lookup escapes the policy, with such a placeholder's error |
| `Pico.SubstitutePicoVariables` | zepto_eln/md_utils/pico_utils.py:60-89 | substitution over the placeholders found, in some iteration order; content without placeholders is unchanged; it fails exactly when some placeholder's lookup escapes the policy; with SubstituteResolvedReplaces, when every placeholder resolves the result is the content with each one replaced by its formatted value |
| `Pico.PicoVars` | zepto_eln/md_utils/pico_utils.py:94-95 | `document.copy()` updated with the file information; PicoVarsMerge, PicoVarsMetaEntry and PicoVarsMeta state its contract |
| `Pico.PicoVarsMerge` | zepto_eln/md_utils/pico_utils.py:94-95 | the variables are the document's keys and the file information's keys; the file information wins a clash |
| `Pico.PicoVarsMetaEntry` | zepto_eln/md_utils/pico_utils.py:94-95 | the metadata is offered under `meta` |
| `Pico.PicoVarsMeta` | zepto_eln/md_utils/pico_utils.py:94-96 | `%meta.key%` resolves to that key of the metadata |
| `Pico.DefaultFormat` | zepto_eln/md_utils/pico_utils.py:67-69 | the default format `"{sub}"` for every variable: the value as `str()` renders it |
| `Pico.WithContent` | zepto_eln/md_utils/pico_utils.py:96 | only the content changes; an error passes through |
| `Pico.DocumentSubstitution` | zepto_eln/md_utils/pico_utils.py:92-96 | the loop under `'print'` for a given order, its result put back into the document's content; WithContent and the two lemmas below state its contract |
| `Pico.DocumentSubstitutionFailsOnlyOnAttribute` | zepto_eln/md_utils/pico_utils.py:96 | substituting into a document only lets AttributeError out |
| `Pico.DocumentSubstitutionWithoutPlaceholders` | zepto_eln/md_utils/pico_utils.py:96 | with nothing to iterate over, the document comes back as it was |
| `Pico.SubstituteIntoDocument` | zepto_eln/md_utils/pico_utils.py:96 | substitution under `'print'` in some iteration order, the result put back into the document; stated for any variables, and DocumentSubstitutePicoVars calls it with the document's own |
| `Pico.DocumentSubstitutePicoVars` | zepto_eln/md_utils/pico_utils.py:92-96 | the same with the document's own variables and the default format `"{sub}"` |

## Left out

- File system access. `open`/`read` and `glob.glob` of `**/*.md` (`find_md_files`) are not
  modelled. A document is a (path, content) pair, and a corpus is a listing of such pairs in
  whatever order the listing gives.
- `yaml.load` is a parameter: a function from the front-matter text to a value or a syntax error.
  The YAML language itself is not modelled.
- The `sep_regex` argument of `split_yfm` and `parse_yfm` is not modelled. Only the default
  pattern is, since every caller uses it. The `pat` argument of
  `pico_find_variable_placeholders` is left out the same way.
- `\w` is read as ASCII letters, digits and underscore. Python's Unicode word characters are not
  modelled.
- Printing is not modelled. A printed warning is the boolean `warned` of `Diagnosed`; the message
  text is not modelled. The debug prints of `pico_find_variable_placeholders` and the
  "Replacing" print are left out. Under `'print'` the message for a missing key is not modelled.
- The printed form of `DocumentYfmError` (`__str__`) is not modelled. The exception is a value
  holding the message, the file and the cause.
- `str.format` with `varfmt` is a parameter `format` from the variable name and the value to the
  text. The default `"{sub}"` renders a string as itself and any other value through the
  parameter `repr` (Python's `str()`).
- The `getattr` fallback of `get_attrs_string_value` is read as an AttributeError for every
  non-dict value. A list or string attribute of that name (for instance `%meta.tags.append%`) is
  not modelled.
- A `list` passed as `attrs` is modelled, but an empty list is not: the `key, *rest` unpacking
  error is excluded by the precondition of `GetAttrs`. Every caller passes a split string, which
  has at least one piece.
- Values are the YAML safe loader's dicts with string keys, lists, strings, integers, booleans
  and `None`. Floats, dates and non-string keys are not modelled.
- Pico.SubstitutePicoVariables: the iteration order of Python's set is not specified; the model
  returns the order taken as a ghost output, so the contract holds for whichever order is used
  rather than for CPython's hash order.
- Pico.DocumentSubstitutePicoVars: the source assigns the new content into the caller's dict
  and returns `None`. The model returns the updated document instead; aliasing and in-place
  update are not modelled.
- DocumentIo.LoadDocument: `yfm.update(fileinfo)` mutates the dict the loader returned; the model
  builds a new value, so aliasing between the metadata and other references is not modelled.
- DocumentIo.FileVerdict: a warning `load_document` prints under a policy containing `"warn"`
  or `"report"` is dropped from the corpus result. Only the document or the error is kept.
- Markdown compilation, templating, the command-line tools and packaging are not part of this
  model.
