# Upload server for intent archives — a Dafny model

`main.ts` is a small Deno HTTP server. A browser drops a zip archive of a
chat-bot agent onto the index page. The page posts the archive to
`/api/uploadFile`. The server unzips it, looks for the English user-phrase
files of each intent (`intents/*_usersays_en.json`), and extracts one phrase
per training record by concatenating the record's text fragments. It answers
with a plain-text report: for each file, a header line `----> <file name>`,
then a line with its phrases, each in double quotes.

The model covers the core of that pipeline:

- **Locator** (`getPhrasesByPath`, first half): the two nested directory
  scans that collect the names of user-phrase files. It is written as an
  imperative method, proved equal to a filter over the listings.
- **Extractor**: a parsed intent document becomes its phrases.
- **Aggregator** (`getPhrasesByPath`, second half): `Promise.all` reads and
  parses every located file, and `reduce` collects the phrases into an
  object keyed by file name. A failure anywhere is caught and leaves the
  empty object.
- **Formatter and upload outcome** (`serveUploadFile`): the loop that pushes
  two lines per file, the newline join, and the body on every path. A thrown
  error's message becomes the body. The status is always 200.
- **Server**: the routing test of `main`'s handler, and `serveFallback`'s
  mapping from error kind to status.

### How the model is built

- The extraction directory is a value: a `seq<Entry>` of files (with
  optional readable content), directories and other entries.
- `JSON.parse` of the decoded bytes is a parameter (`Aggregator.Parser`).
  So is `unZipFromFile` (`Upload.Unzipper`).
- The multipart form and the staging write are inputs holding their own
  outcome.
- A JavaScript object from file names to phrase lists is a `seq<Binding>`.
  The order is insertion order, which is also the object's iteration order
  here, because a name ending in `_usersays_en.json` is never an array
  index.
- Assigning a property either replaces the value in place or appends a new
  binding (`Aggregator.Set`).

### Failures empty the report

- **One bad file.** A file that fails to read or parse rejects
  `Promise.all`. The `catch` of `getPhrasesByPath` (main.ts:182) then
  leaves `{}`, so the whole report is empty, whatever the other files hold
  (`Aggregator.OneFailureEmptiesAll`).
- **A failing directory listing.** A `Deno.readDir` that throws is caught
  by the same `catch`. The body is then empty, not an error message.

## Model

| member | source | states |
|---|---|---|
| FileTree.Find | main.ts:163 | a found entry is in the listing and has the name; `None` means no entry of the listing has it |
| FileTree.FindUnique | main.ts:163 | in a listing with unique names, looking up an entry's name finds that entry |
| FileTree.ReadFile | main.ts:163 | reading `${path}/intents/${filename}` succeeds only when the directory and a regular file of those names exist, and it yields that file's content |
| Locator.LocateUserSaysFiles | main.ts:150-160 | the two nested scans push exactly the names `Locate` describes, in listing order |
| Locator.SelectAtIndices | main.ts:154-158 | the selected names are the names of the entries at the selected positions, one per position |
| Locator.SelectedIndicesIncrease | main.ts:154-158 | the selected positions lie inside the listing and strictly increase, so listing order is kept and nothing is taken twice |
| Locator.SelectedIndicesComplete | main.ts:154-158 | every regular file whose name ends in `_usersays_en.json` is at a selected position |
| Locator.SelectIsFilter | main.ts:154-158 | selecting is filtering: exactly the user-phrase files, in listing order, each once |
| Locator.SelectMembership | main.ts:154-158 | a name is selected iff some regular file of the listing has it and it ends in `_usersays_en.json` |
| Locator.LocateContributions | main.ts:151-158 | a name is located iff some root entry that is a directory named `intents` selects it |
| Locator.LocateMembership | main.ts:151-158 | a name is located iff it names a user-phrase file directly inside a directory of the root named `intents`; files elsewhere, and directories with that suffix, are never located |
| Locator.LocateWithoutIntents | main.ts:151-153 | a root without an `intents` directory locates nothing |
| Locator.LocateIntents | main.ts:151-158 | in a root with unique names, the located files are exactly those selected from its one `intents` directory |
| Locator.SelectDistinct | main.ts:154-158 | a listing with unique names selects no name twice |
| Locator.LocateDistinct | main.ts:151-158 | with unique names at every level, no file is located twice |
| Locator.LocatedFileIsRead | main.ts:154-163 | the m-th located name is read back as the content of the m-th selected entry of the `intents` listing |
| Extractor.Texts | main.ts:171 | one text per fragment, in order: the `text` field of each |
| Extractor.TextsAppend | main.ts:171 | the texts of appended fragment lists are the appended text lists |
| Extractor.PhrasesInRecordOrder | main.ts:169-173 | one phrase per record, in record order; the i-th is the i-th record's phrase |
| Extractor.PhraseIsConcatenation | main.ts:170-172 | a phrase is the concatenation of its fragments' texts with no separator; a record without fragments gives the empty phrase; its length is the sum of the texts' lengths |
| Extractor.PhraseOfConcatenatedFragments | main.ts:170-172 | splitting a record's fragments in two splits its phrase the same way |
| Extractor.TwoRecordsExample | main.ts:169-173 | records with the fragments ("a", "b") and ("c") give the phrases "ab" and "c" |
| Aggregator.Keys | main.ts:128 | the property names a `for...in` loop visits are the bindings' names, in order |
| Aggregator.SetKeys | main.ts:178 | assigning a property keeps the keys when the name is present and appends the name otherwise |
| Aggregator.SetSpec | main.ts:178 | assigning a new name appends one binding; assigning an existing name keeps the key order; the name then holds the new value and every other name keeps its value |
| Aggregator.SetFresh | main.ts:178 | assigning a name that is not yet a key appends its binding at the end |
| Aggregator.SetLookup | main.ts:178 | after an assignment, the assigned name holds the new value and every other name its old one |
| Aggregator.ReadAll | main.ts:161-175 | when every read and parse succeeds, there is one phrase list per located file |
| Aggregator.ReadAllFailsOnTask | main.ts:161-175 | one failing read or parse makes `Promise.all` fail |
| Aggregator.ReadAllSucceeds | main.ts:161-175 | when every task succeeds, `Promise.all` succeeds |
| Aggregator.ReadAllFails | main.ts:161-175 | `Promise.all` fails iff some task fails |
| Aggregator.ReadAllValues | main.ts:161-175 | on success, the i-th result is the phrases of the i-th file, matched by index |
| Aggregator.AssembleKeysMembership | main.ts:176-180 | the result's keys are exactly the located names |
| Aggregator.AssembleKeysDistinct | main.ts:176-180 | the result has no key twice, even when a name is located twice |
| Aggregator.AssembleKeys | main.ts:176-180 | the result's keys are distinct and are exactly the located names |
| Aggregator.AssembleLookup | main.ts:176-180 | a name holds the phrases of its last occurrence: the last write wins |
| Aggregator.AssembleDistinct | main.ts:176-180 | for distinct names, the result pairs the i-th name with the i-th phrase list, in order |
| Aggregator.FillByIndex | main.ts:176-180 | the `reduce` loop builds exactly the assembled object |
| Aggregator.GetPhrasesByPath | main.ts:147-187 | `getPhrasesByPath` gives the empty object when any task fails, and otherwise the object assembled from the located files and their phrases |
| Aggregator.OneFailureEmptiesAll | main.ts:161-186 | one located file that cannot be read or parsed empties the whole mapping, whatever the other files hold |
| Aggregator.EmptyMappingIff | main.ts:147-186 | the mapping is empty iff nothing is located or some task fails; a non-empty mapping has all tasks succeeded |
| Aggregator.AllFilesParsed | main.ts:161-180 | with distinct names and every task succeeding, the keys are the located names in order, and each holds the phrases of its own file |
| Aggregator.ReadPhrasesOfEntry | main.ts:163-173 | reading a located entry yields the phrases of what its content parses to |
| Aggregator.FileSystemMapping | main.ts:150-180 | with unique names, the mapping has one binding per user-phrase file of `intents`, and the m-th binding holds that file's name and the phrases of its content |
| Formatter.FormatReport | main.ts:127-134 | the loop and join build exactly the report of the table |
| Formatter.ReportLinesSpec | main.ts:127-133 | two lines per file, in key order: `----> name`, then the quoted phrases; an empty table gives the empty report |
| Formatter.ReportOfOneFile | main.ts:127-134 | one file gives its header line, one newline and its phrase line |
| Formatter.PhraseLineBase | main.ts:131 | no phrases give `""`; one phrase gives that phrase in quotes |
| Formatter.PhraseLineAppend | main.ts:131 | each further phrase adds `" "` and the phrase, inside the closing quote |
| Formatter.ReportSplitsIntoLines | main.ts:127-134 | when no name or phrase holds a newline, the report splits back into exactly its 2·n pushed lines: no trailing newline and nothing extra |
| Common.JoinEmptySeparator | main.ts:172 | joining with `''` is plain concatenation |
| Common.JoinSnoc | main.ts:131 | joining one more part adds the separator and that part |
| Common.SplitJoin | main.ts:134 | splitting a newline join recovers the parts when none holds a newline |
| Upload.ServeUploadFile | main.ts:103-145 | the status is 200 on every path; the body is the message of the first step that throws, empty for a falsy unzip result, and otherwise the report of the archive's phrases |
| Upload.NoIntentsGivesEmptyBody | main.ts:126-134 | an archive without an `intents` directory gives an empty body |
| Upload.OneBadFileGivesEmptyBody | main.ts:126-134 | one unreadable or unparsable user-phrase file gives an empty body |
| Upload.SampleArchive | main.ts:103-145 | an archive with one user-phrase file of two records, beside a file of another kind, gives exactly the two-line report of that one file |
| Upload.SampleLocate | main.ts:150-160 | in the sample archive only the user-phrase file is located |
| Upload.SamplePhrases | main.ts:169-173 | the sample's records give "phrase one" and "phrase two" |
| Upload.SampleReport | main.ts:127-134 | the sample's table formats to its two lines |
| Server.Route | main.ts:197-201 | a request reaches the upload handler iff its URL is exactly `/api/uploadFile` and its method exactly `POST` |
| Server.NearMissesGetIndex | main.ts:197-201 | a GET, a query string, a different case of path or method, and the root path all get the index page |
| Server.ServeFallback | main.ts:84-101 | 400 iff a `URIError`, 404 iff `NotFound`, 500 iff anything else, each with its fixed body |
| Server.FallbackIgnoresMessage | main.ts:84-101 | the fallback never answers 200, and its answer depends only on the error's kind |
| Server.Handle | main.ts:193-202 | every request is answered with 200: the upload body on the upload route, the index page otherwise |

## Left out

- The HTTP server itself is not modelled: `listenAndServe`, `req.respond`, `serverLog` and its clock. A failing `respond` only logs.
- The HTML and script of the index page are not modelled; the page is the opaque body `IndexPage`.
- `multiParser` is not modelled. The form step is an input: either the bytes of the `myFile` field or the message it threw. That includes a missing form or a missing field, where reading `.files` or `.content` throws a `TypeError`.
- Creating `tmpUpload` and removing `tmpUnzip` are not modelled. Both swallow their errors. What a failed removal leaves behind is covered by the `unZipFromFile` line below.
- Writing the staging file is an input outcome.
- `unZipFromFile` is a parameter (`Upload.Unzipper`). The model does not capture the zip format, the extraction, or leftovers from earlier uploads in a reused `tmpUnzip`.
- `JSON.parse` and UTF-8 decoding are a parameter (`Aggregator.Parser`). A document of the wrong shape counts as a failed parse.
- Extractor.Texts: a fragment's `text` is a string. `join('')` turning a non-string `text` into a string (or `undefined` and `null` into `""`) is not modelled.
- Locator.LocateUserSaysFiles: a failing `Deno.readDir` is not modelled. In the code it is caught in `getPhrasesByPath` and gives `{}`, the same as a failed read.
- Locator.LocateUserSaysFiles: each `intents` entry's own children are scanned, not `${path}/intents` looked up again. The two agree because a directory listing has unique names.
- The concurrency of `Promise.all` and the `async` iteration are not modelled. The result does not depend on the order in which the reads settle. Which failure gets logged is not modelled.
- Logging (`console.log`, `console.error`) is not modelled.
- Strings are `seq<char>`. JavaScript's UTF-16 code units and the UTF-8 encoding of the bodies are not modelled.
- Upload.ServeUploadFile: the body is the thrown value's `message`. A thrown non-`Error` value is not modelled. If it is an object without a `message`, the body would be `undefined`. If it is `null` or `undefined`, reading `e.message` at main.ts:138 throws a `TypeError`, which escapes `serveUploadFile`. The contract's status 200 does not hold in that case.
- Server.Handle: the `catch` that calls `serveFallback` (main.ts:203-205) is not modelled as a path. It is reached only when `serveUploadFile` rethrows, which happens when the value thrown is `null` or `undefined` (see the line above). That `TypeError` then gets a 500. `Server.ServeFallback` models the mapping on its own.
