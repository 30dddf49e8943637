# Upload filter of the MarkItDown API server

The server's working endpoint is `POST /process_file`; `GET /` only returns
a hint pointing to `/docs`. `POST /process_file` takes an uploaded file,
writes it to a temporary path, and hands it to the MarkItDown library for
conversion to markdown. Before any of that, it rejects uploads whose file
name carries a denylisted extension. This project models that filter:

- `FORBIDDEN_EXTENSIONS`: the denylist of 52 entries, in source order. It is
  written as the concatenation of the source's comment groups. `bin` and
  `obj` each appear twice.
- `is_forbidden_file`: a name is forbidden when it contains a `.` and the
  text after its last `.`, lower-cased, is on the denylist.
- The guard at the top of `process_file`: a forbidden name is answered with
  HTTP 400 and `{"error": "File type not allowed"}`. Every other name goes
  on to the temporary file and the conversion.

Files:

- `python_str.dfy` (module `PyStr`) models two Python `str` operations
  the filter uses: `s.lower()`, and `s.rsplit(sep, 1)` with `rfind` as its
  search. The third, the substring test `"." in filename`, is Dafny's own
  sequence membership: for a one-character needle the two agree.
- `app.dfy` (module `App`) holds the denylist, `IsForbiddenFile`, the
  `Decide` guard, and the lemmas about them.

The main results:

- `App.IsForbiddenFile` carries a second definition of the filter that
  does not use `rsplit`. A name is forbidden exactly when it ends, ignoring
  case, in `.` plus a denylisted extension. `Decide` states its verdict in
  these terms.
- `App.CaseInsensitive` proves that case does not matter.
- `App.LastSegmentDecides` proves that only the last segment counts.
- `PyStr.RSplit1` and `PyStr.RSplit1Join` prove that the split and the
  join with `.` undo each other.

## Model

| member | source | states |
|---|---|---|
| `PyStr.LowerChar` | app.py:98 | the result is never an ASCII upper-case letter nor the Kelvin sign; `A`-`Z` map to the letter at the same position in `a`-`z`; the Kelvin sign (U+212A) maps to `k`; every other character is unchanged |
| `PyStr.Lower` | app.py:98 | `.lower()` keeps the length and folds each character on its own, in place |
| `PyStr.LowerKeeps` | app.py:98 | lower-casing leaves every non-letter where it was, so a `.` stays a `.` and nothing else becomes one |
| `PyStr.LowerIdempotent` | app.py:98 | lower-casing twice gives the same result as lower-casing once |
| `PyStr.LowerOfUnfolded` | app.py:98 | a string with no upper-case letter is its own lower-case form |
| `PyStr.RFind` | app.py:98 | the result is -1 or an index holding the separator, and no later index holds it; so it is -1 exactly when the separator is absent |
| `PyStr.RFindUnique` | app.py:98 | an occurrence with no later occurrence is the index `rfind` returns |
| `PyStr.RSplit1` | app.py:98 | `rsplit(sep, 1)` gives one part, the whole string, exactly when `sep` is absent; otherwise it gives two parts that rejoin with `sep` to the input, and the second part holds no `sep` |
| `PyStr.RSplit1Join` | app.py:98 | inverse: `p + sep + e` with no `sep` in `e` splits back into exactly `[p, e]` |
| `PyStr.RSplit1Lower` | app.py:98 | splitting the lower-cased name gives the lower-cased parts of the original split |
| `App.DenylistEntriesArePlain` | app.py:33-93 | every denylist entry is a non-empty run of lower-case ASCII letters and digits |
| `App.PlainEntries` | app.py:33-93 | such entries are not empty, hold no `.`, and equal their lower-case form |
| `App.LastSegmentDecides` | app.py:96-99 | for a dot-free `ext`, a name equal to `stem + "." + ext` is forbidden exactly when `ext` lower-cased is on the denylist, whatever `stem` holds, its dots included |
| `App.LastExtensionInIffSuffix` | app.py:97-98 | for any list of plain extensions, the `rsplit` test and the case-insensitive suffix test agree on every name, in both directions |
| `App.IsForbiddenFile` | app.py:96-99 | `is_forbidden_file`: a name is forbidden exactly when it ends, ignoring case, in `.` plus a denylisted extension |
| `App.LastExtensionIn` | app.py:97-98 | the `"." in filename and ... in LIST` test against any list; a name that passes ends, ignoring case, in `.` plus an entry of the list |
| `App.CaseInsensitive` | app.py:98 | two names with the same lower-case form get the same verdict |
| `App.NoDotNeverForbidden` | app.py:97-98 | a name without `.` is never forbidden, whatever its text |
| `App.TrailingDotAllowed` | app.py:98 | a name ending in `.` has an empty last segment, which is not on the denylist, so it is allowed |
| `App.DotFileForbidden` | app.py:98 | `.` followed by any denylisted extension, such as `.exe`, splits into `""` and that extension, so it is forbidden |
| `App.RepeatedEntryRedundant` | app.py:33-93 | dropping an entry that also occurs earlier leaves the list's members unchanged |
| `App.DuplicatesChangeNothing` | app.py:33-93 | `bin` (indices 7 and 24) and `obj` (33 and 48) are repeated entries; without them the list has the same members and every name gets the same verdict |
| `App.Decide` | app.py:118-119 | the guard rejects exactly the names that end, ignoring case, in `.` plus a denylisted extension; a rejection is status 400 with `{"error": "File type not allowed"}`; every other name proceeds, so the filter has no other reason to refuse |
| `App.DoubleExtensionExeLast` | app.py:118-119 | `report.pdf.exe` is forbidden and rejected |
| `App.DoubleExtensionPdfLast` | app.py:118-119 | `report.exe.pdf` is allowed and proceeds |
| `App.ExeInAnyCaseForbidden` | app.py:98 | any name whose last segment lower-cases to `exe` is forbidden |
| `App.CaseExamples` | app.py:98 | `setup.exe`, `SETUP.EXE` and `Setup.Exe` are all forbidden |
| `App.KelvinSignExample` | app.py:98 | `x.ap` followed by the Kelvin sign lower-cases to `x.apk` and is forbidden |
| `App.EdgeExamples` | app.py:97-98 | `exe` and `bin` with no dot are allowed, and so is `notes.`; the dot-file `.exe` is forbidden |

## Left out

- `PyStr.Lower` folds `A`-`Z` and the Kelvin sign only. Python's `str.lower` also folds other non-ASCII letters, into non-ASCII text (U+0130 even becomes two characters). Such a segment cannot equal an ASCII denylist entry either way, so every verdict is the server's; `Lower` itself is not Python's `lower` on those letters.
- `PyStr.RSplit1` takes a one-character separator, which is all the filter uses. Python's `rsplit` also accepts longer separators.
- The rest of `process_file` (app.py:121-142) is not modelled. That covers writing the upload to a temporary file, converting it, answering 500 with the exception text on failure, and deleting the file in `finally`. All of it is file-system I/O around an external library. `Decide` returns `Proceed` at the point where that part begins. The model therefore does not show that a temporary file is created only after `Proceed`; it only shows that a rejection is the complete response. One more case sits in that part: `temp_file_path` is assigned only at app.py:125. If creating the temporary file, `await file.read()` or `temp_file.write` fails (app.py:123-124), the name is unbound when the `finally` block reads it at app.py:138. The resulting `UnboundLocalError` then replaces the 500 response.
- `convert_to_md` (app.py:102-108) is not modelled. It wraps the MarkItDown library and the OpenAI client, whose behaviour is not part of this source.
- Startup is not modelled: the `OPENAI_API_KEY` check and client creation (app.py:14-25). It reads the environment and sets up network clients.
- FastAPI routing, `read_root`, the uvicorn launch and logging (app.py:27-30, 111-113, 145-148) are web-framework plumbing and are not modelled.
- A missing filename (`None`) is not modelled. The `in` test at app.py:98 would raise a `TypeError` inside the framework. The model's filename is always a string.
