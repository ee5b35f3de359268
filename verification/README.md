# ms-textfile-crud in Dafny

This is a model of the text-file service of `main.py`. The service stores a
text document as numbered lines in the table `dm.dm_textfile`. There is one row
`(compid, filetype, lineno, base64str)` per line. Each file is identified by a
component id and a file type.

- `POST /msapi/textfile` replaces a file's lines in one transaction. It deletes
  the old rows, then inserts the new lines numbered from 1. The insert is
  skipped when the list is empty.
- `GET /msapi/textfile` selects a file's lines in line order and joins them.
  It base64-decodes the result, then decodes it as UTF-8. It answers with the
  text and a media type picked by `get_mimetype`.

Both handlers first ask an external authorizer, which yields a 401 on failure.
Both run the database block in up to `db_conn_retry = 3` attempts, sleeping
between them. A new attempt follows only SQLAlchemy's
`InterfaceError`/`OperationalError`, and at most two such retries are made. Every other
failure is turned into a 500.

Modules:

- `Bytes`, `Wrappers`: octets, `Option` and `Result`.
- `Base64`: `base64.b64decode` as CPython's lenient decoder. It skips
  characters outside the alphabet, stops at a completing `=` run and reports
  incorrect padding. It also has a canonical encoder as the decoder's partner.
- `Utf8`: strict UTF-8 decoding, as in Table 3-7 of the Unicode Standard, with
  its encoder as partner.
- `MimeType`: `get_mimetype`. The JSON and YAML parsers are predicates.
- `Validation`: the request constraints, `compid >= 1` and the file-type
  pattern `^(?!\s*$).+` under `re.match`.
- `Auth`: the 401 gate.
- `Retry`: the retry loop's outcome for a given sequence of per-attempt faults.
- `TextFileTable`: the table as a sequence of rows.
  - The DELETE, INSERT and `SELECT ... ORDER BY lineno` statements.
  - The table key `(compid, filetype, lineno)` as an invariant.
  - The two loops of the handlers as methods.
- `Service`: the class `TextFileService`. Its fields are the table and counters
  of connection attempts and sleeps taken. Its methods are the two handlers.

Behaviour of `main.py` that the model keeps:

- **Validation comes before authorization.** The framework rejects a bad
  `compid` or `filetype` with 422 before the handler body runs, so a
  malformed request is never sent to the authorizer.
- **Every 401 detail starts with `Authorization Failed:`.** The 401s raised
  inside the `try` at lines 119 and 122 are caught by the `except Exception` at
  line 123 and raised again with that prefix.
- **The authorizer call has no timeout.** `requests.get` is called without one
  (lines 117 and 185). A call that never returns is outside the model.
- **Almost any text is served as YAML.** `get_mimetype` (lines 101-103) returns
  `text/yaml` for every text `yaml.safe_load` accepts. That parser accepts plain
  scalars, so text such as `not structured` is served as `text/yaml`, not as
  plain text. The empty text is also accepted by `yaml.safe_load`. The parsers
  are predicates here, so the model leaves those verdicts to them.
- **Only connection errors are retried.** The statements run on the raw
  psycopg2 cursor (`connection.connection`), whose exceptions are psycopg2's
  own classes, not SQLAlchemy's `InterfaceError`/`OperationalError` caught at
  lines 153 and 226. So only a
  failure of `engine.connect()` is a `Transient` fault. An error raised by a
  statement or the commit is `Fatal` and is not retried.

## Model

| member | source | states |
|---|---|---|
| Service.TextFileService.GetFileContent | main.py:114-173 | Read handler. It answers 422 on an invalid request and 401 on a rejected authorization, in both cases without touching storage. Otherwise it makes one connection attempt per storage attempt and sleeps between attempts. On commit it answers with the reconstructed file of `Select` and its media type, or a 500 naming the decoding failure. When the loop gives up it answers a 500 with the database error. The table never changes. |
| Service.TextFileService.SaveFileContent | main.py:182-246 | Write handler. It has the same 422 and 401 gates and the same retry accounting. On commit the table becomes `Replace(old table, compid, filetype, file)` and the reply is `components updated succesfully`. When the loop gives up the table is unchanged (rolled back) and the reply is a 500. It preserves the key invariant. |
| Service.PostThenGet | main.py:182-224 | A committed write of an encoded document followed by a read that gets through returns that document with its media type. This holds however many transient failures either call met. |
| Service.WriteThenReadDocument | main.py:139-151 | Reading right after writing lines that encode a document yields `Document(doc, GetMimetype(doc))`. |
| Service.ReconstructEncoded | main.py:149-150 | Joining lines that split the base64 of a document's UTF-8 bytes anywhere, then decoding both layers, gives back the document. |
| Service.ReconstructStopsAtPaddedLine | main.py:149-150 | When lines are base64-encoded one by one, a read returns the text of the lines up to and including the first padded line, wherever it sits. Every line after it is dropped. |
| Service.ReadOfUnwrittenFile | main.py:139-151 | A file with no rows reads as an empty document with status 200, not as an error. |
| TextFileTable.BuildRowList | main.py:204-209 | The loop gives line `k` the row `(compid, filetype, k+1, file[k])`, and the result equals the numbered rows `Numbered(.., file, 1)`. |
| TextFileTable.CollectContents | main.py:145-147 | The loop collects `rec[3]`, the `base64str` column, of every record, in record order. |
| TextFileTable.RowsOf | main.py:139-140 | The WHERE clause keeps exactly the table's rows of the given file. |
| TextFileTable.WithoutFile | main.py:213-214 | The DELETE keeps exactly the rows of other files. |
| TextFileTable.PartitionByFile | main.py:213-214 | The DELETE removes, as a multiset, exactly the rows the SELECT of the same file returns. |
| TextFileTable.NumberedRows | main.py:204-209 | Numbering keeps the file, counts up from its start without gaps and keeps each line as given. |
| TextFileTable.SortByLinenoSpec | main.py:139 | `ORDER BY lineno` returns the rows in ascending line order, as a permutation of the filtered rows. |
| TextFileTable.OrderByLinenoDeterminate | main.py:139-141 | Under the table key, every row order the database may return for the query equals `Select`. |
| TextFileTable.RowsOfReplace | main.py:211-222 | After a write, the file's rows are exactly the new numbered lines. No earlier row survives. |
| TextFileTable.ReplaceKeepsOtherFiles | main.py:213-214 | A write leaves the rows of every other file unchanged. |
| TextFileTable.ReadAfterWrite | main.py:139-147 | Reading right after writing `lines` returns `lines`, in order. |
| TextFileTable.ReadAfterClear | main.py:213-219 | Writing an empty list deletes the file's rows and inserts none, so a later read returns nothing. |
| TextFileTable.ReplaceSupersedes | main.py:211-222 | A write replaces and does not merge: two writes in a row leave the table as the second write alone does. |
| TextFileTable.ReplaceIdempotent | main.py:211-222 | Repeating the same write changes nothing further. |
| TextFileTable.ReplacePreservesKeyUnique | main.py:211-222 | A write preserves the key `(compid, filetype, lineno)`, so the INSERT never violates it. |
| Service.Concat | main.py:149 | Computes `"".join(file)`: the lines, one after the other. |
| Service.Reconstruct | main.py:149-150 | Joins the lines, base64-decodes, then UTF-8-decodes. It returns a text `t` exactly when the joined lines base64-decode to the UTF-8 encoding of `t`. Otherwise the error names the failing step: a base64 failure carries `b64decode`'s error, and a UTF-8 failure means the decoded bytes encode no text. |
| Service.Render | main.py:150-151 | The committed read's answer. Whenever the lines decode to a text it is that document, with the media type of that text. Otherwise it is a 500 carrying the decoding failure, never a storage failure. |
| TextFileTable.Numbered | main.py:204-209 | Computes the rows the loop builds: line `k` becomes `(compid, filetype, lineno + k, lines[k])`. Its properties are stated by `NumberedRows`. |
| TextFileTable.Replace | main.py:211-222 | The table after a committed write: the rows of other files, then the numbered new lines. A row is in it exactly when it belonged to another file or is one of the new lines. |
| TextFileTable.SortByLineno | main.py:139 | Computes `ORDER BY lineno` as a stable insertion sort. Its properties are stated by `SortByLinenoSpec`. |
| TextFileTable.Select | main.py:139-141 | The query's answer: the file's rows, as a permutation in ascending line order. |
| MimeType.Lower | main.py:93 | `filetype.lower()` on ASCII letters: same length, every character lowered. |
| Validation.MatchesFiletypePattern | main.py:115 | `re.match("^(?!\s*$).+", s)` read literally: `\s*$` does not match at the start, and `.` (anything but a newline) matches the first character. Its meaning is stated by `FiletypePatternMeaning`. |
| Base64.Decode | main.py:150 | `base64.b64decode` on a `str`: a non-ASCII string is refused, otherwise the lenient decoder runs. A result has at most three bytes per four characters. |
| Utf8.Decode | main.py:150 | `.decode("utf-8")`, strict: the decoded text has at most one character per byte, and an error names a byte offset inside the input. |
| TextFileTable.Base64Column | main.py:145-147 | The `file` list the read path builds: one entry per record, the record's `base64str` (`rec[3]`), in record order. |
| Validation.ValidCompid | main.py:115 | `compid` with `ge=1`: the component id is at least 1. The same constraint is on the request body at line 177. |
| Validation.ValidRequest | main.py:115 | Both query constraints hold: `compid >= 1` and the file-type pattern. Lines 177-178 put the same constraints on the request body. Both handlers answer 422 exactly when it fails. |
| MimeType.GetMimetype | main.py:92-107 | The result is one of the four media types. The first test that applies decides: README in any case gives Markdown, else JSON, else YAML, else plain text. Each outcome is stated as an if-and-only-if. |
| MimeType.ReadmeAnyCase | main.py:93 | Every upper/lower-case spelling of `readme` is served as Markdown. |
| MimeType.ReadmeIgnoresContent | main.py:93-94 | A README's media type depends neither on its content nor on the parsers. |
| MimeType.JsonBeforeYaml | main.py:95-103 | A text both parsers accept is served as JSON. |
| Validation.FiletypePatternMeaning | main.py:115 | `re.match` with `^(?!\s*$).+` accepts exactly the file types that are non-empty, not all whitespace, and do not start with a newline. |
| Auth.AuthRejection | main.py:116-124 | There is no 401 if and only if the authorizer replied 200. Every 401 detail starts with `Authorization Failed:`. An exception from the call is reported after that prefix. |
| Retry.Run | main.py:126-167 | Attempts run from 1 to at most `db_conn_retry`. Every attempt before the last one failed transiently. The loop commits exactly when the last attempt is clean. Otherwise the error surfaces: a non-retryable one at once, or the third transient one. |
| Retry.RunStopsAtFirstNonTransient | main.py:153-167 | The first attempt that is not a transient failure decides the outcome. |
| Retry.TransientTwiceThenClean | main.py:153-165 | Two transient failures and then a clean attempt commit on the third attempt. |
| Retry.TransientThrice | main.py:166-167 | A third transient failure is raised and not retried. |
| Retry.FatalNotRetried | main.py:153 | An exception other than `InterfaceError`/`OperationalError` is never retried. |
| Base64.DecodeEncode | main.py:150 | `b64decode` returns exactly the bytes the canonical encoder encoded. |
| Base64.FeedEncode | main.py:150 | After the encoding of whole groups, decoding carries on into what follows. After a padded final group, decoding ends and ignores what follows. |
| Base64.DecodeStopsAfterPadding | main.py:149-150 | Fragments encoded one by one and joined decode to the bytes of every fragment up to and including the first padded one, wherever it sits. Whatever follows is ignored. |
| Base64.EncodeShape | main.py:150 | The canonical encoding has four ASCII characters per started group of three bytes. |
| Utf8.DecodeIffEncoded | main.py:150 | `.decode("utf-8")` yields `s` if and only if the bytes are the UTF-8 encoding of `s`. Nothing else decodes. |
| Utf8.DecodeScalarEncodeChar | main.py:150 | The first scalar of a character's encoding is that character, with the encoding's width. |

## Left out

- The FastAPI application, routing, swagger metadata and `uvicorn` start-up are framework code. Only the 422 answer to a bad request is modelled.
- The `/health` endpoint (lines 74-89) is not part of this model.
- Reading the environment, the `gethostbyaddr` lookup and building the authorizer URL (lines 53-66) are configuration done once at start-up.
- The authorizer's HTTP call and the cookies it forwards enter only as the call's outcome (`Auth.AuthOutcome`).
- The JSON and YAML parsers are foreign code. They enter as predicates that hold when the parser returns without raising.
- Database faults enter as one outcome per attempt. Every fault is assumed to strike before the commit takes effect. A commit that lands but whose acknowledgement is lost is not modelled.
- Concurrent requests are not modelled: each handler call runs alone on the table.
- Logging, `print` and the 0.2 s sleep are left out. Sleeps are only counted.
- Service.TextFileService.GetFileContent: the substitution of `swagger` for a missing file type (lines 135-136) is left out. The file type is a required parameter and is never None.
- Service.TextFileService.GetFileContent: a 500 carries the failure's cause (`Service.Cause`), not the text of the library's exception message.
- Service.TextFileService.SaveFileContent: a 500 carries the failure's cause, not the text of the library's exception message.
- Auth.AuthRejection: `str()` of an `HTTPException` is taken to be `"<status>: <detail>"`, as the web framework formats it.
- MimeType.GetMimetype: `filetype.lower()` is modelled on ASCII letters only. This decides the comparison with `readme` exactly, because no other character lowers to an ASCII letter in that word.
- The parsing of `compid` from text to an integer is done by the framework. The model takes it as an integer.
- `rec[3]` assumes the table's columns are in the order `(compid, filetype, lineno, base64str)`, the order of the INSERT's column list.
