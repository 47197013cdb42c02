# printtopdf output naming and links loading, in Dafny

This project models the part of the `withhtml` batch exporter (`printtopdf.py`) that is its own
logic and not a call into a library:

- **Output naming** in `process_link`. The path of a parsed link is stripped of leading and
  trailing `/`. Every remaining `/` becomes `_`, and `.pdf` is appended to give the base name.
  Two output paths are then joined onto the output directory: the base name plus
  `_save_as_pdf.pdf` (the file Playwright's `page.pdf` writes) and the base name plus
  `_microsoft_print_to_pdf.pdf` (the path meant for the print dialog; the simulated key presses
  never receive it, so it only appears in a log message). The doubled extension
  (`a_b.pdf_save_as_pdf.pdf`) is modelled as written.
- **Links loading** in `load_links_from_json`. The decoded JSON document is accepted only if it
  is a dict whose `"links"` entry is a list. That list is returned unchanged. Every other shape
  raises `ValueError` with a fixed message.

Modules:

- `Wrappers` (`wrappers.dfy`): `Result`, which stands for a return value or a raised exception.
- `Json` (`json.dfy`): `JsonValue`, the values `json.load` yields (`None`, `bool`, number, `str`,
  `list`, `dict`).
- `Text` (`text.dfy`): the library string operations the naming rule relies on:
  `str.strip("/")` (a forward scan over leading slashes, then a backward scan over trailing
  ones), `str.replace("/", "_")` and `os.path.join` with POSIX rules. Each has a functional
  definition, and strip and replace also have an index-scanning method proved equal to it.
  `LastSegment` (the POSIX basename) is not called by the program. It is a reference inverse of
  join, used only to state that each output path sits directly in the output directory.
- `PrintToPdf` (`printtopdf.dfy`): the base name, the two output paths, the links check, and
  the lemmas about them.

`urlparse` is not modelled. `ParsedUrl` holds its six fields as an input, and only `path` is
read. `os.path.join(dir, name)` is modelled by its POSIX rule for two arguments:
- an absolute `name` replaces `dir`;
- nothing is inserted after an empty `dir` or one ending in `/`;
- otherwise the result is `dir + "/" + name`.

A base name never starts with `/`, so the first branch never applies to the output names.

## Model

| member | source | states |
|---|---|---|
| Text.SkipSlashes | printtopdf.py:36 | the forward scan of `strip("/")` stops at the first position that is not `/` and passes only slashes |
| Text.SkipSlashesBack | printtopdf.py:36 | the backward scan of `strip("/")` stops just after the last non-slash character (or at the start bound) and passes only slashes |
| Text.SkipSlashesUnique | printtopdf.py:36 | any position that follows only slashes and is not itself `/` is where the forward scan stops |
| Text.SkipSlashesBackUnique | printtopdf.py:36 | any position that is followed only by slashes and comes after a non-slash is where the backward scan stops |
| Text.Strip | printtopdf.py:36 | `strip("/")` yields a contiguous slice of the path, with only slashes before and after it and no slash at either of its ends |
| Text.StripUnique | printtopdf.py:36 | any decomposition of a string into slash border, middle with no slash at either end, and slash border has `Strip` as its middle, so that shape determines `Strip` |
| Text.StripEmptyIff | printtopdf.py:36 | stripping yields the empty string exactly when the path is empty or consists only of `/` |
| Text.StripIgnoresLeadingSlash | printtopdf.py:36 | one more leading `/` does not change the stripped path |
| Text.StripIgnoresTrailingSlash | printtopdf.py:36 | one more trailing `/` does not change the stripped path |
| Text.StripOfTrimmed | printtopdf.py:36 | a path with no `/` at either end is unchanged by stripping |
| Text.StripIdempotent | printtopdf.py:36 | stripping an already stripped path changes nothing |
| Text.StripBounds | printtopdf.py:36 | a forward loop over leading slashes and a backward loop over trailing ones find bounds whose slice is exactly `strip("/")` |
| Text.ReplaceSlashes | printtopdf.py:36 | `replace("/", "_")` keeps the length, puts `_` wherever there was `/`, keeps every other character in place, and leaves no `/` |
| Text.ReplaceSlashesIdentityIff | printtopdf.py:36 | `replace("/", "_")` leaves a string unchanged if and only if it contains no `/` |
| Text.ReplaceSlashesMergesSeparators | printtopdf.py:36 | after replacement, a `/` and a `_` at the same position give the same string |
| Text.ReplaceSlashesScan | printtopdf.py:36 | a character-copying loop computes the same string as `replace("/", "_")` |
| Text.DirPrefix | printtopdf.py:39-40 | the text `os.path.join` places before a relative name is the directory itself exactly when the directory is empty or already ends in `/`, and otherwise the directory plus one `/`; it is empty or ends in `/` |
| Text.Join | printtopdf.py:39-40 | the joined path ends with the file name; an absolute name discards the directory; a relative name is preceded by exactly the directory prefix |
| Text.LastSegment | printtopdf.py:39-40 | `basename` returns a slash-free suffix that starts the string or follows a `/` |
| Text.LastSegmentAfterSlash | printtopdf.py:39-40 | a slash-free name after a prefix ending in `/` is exactly what `basename` recovers |
| Text.JoinThenLastSegment | printtopdf.py:39-40 | `basename(join(dir, name)) == name` for every slash-free name, so a joined file lands directly in the directory |
| PrintToPdf.Stem | printtopdf.py:36 | the stem has no `/`, has the stripped path's length, and keeps each non-slash character of the stripped path in place |
| PrintToPdf.BaseName | printtopdf.py:36 | the base name is the stem followed by `.pdf`: it has no `/`, its first characters are exactly the stem, it ends in `.pdf`, and it is exactly `.pdf` if and only if the path is empty or all slashes |
| PrintToPdf.OutputPaths | printtopdf.py:39-40 | both outputs are the directory prefix, then the same base name, then their own suffix; `basename` of each gives base name plus suffix; the two are always different |
| PrintToPdf.SuffixesAreSlashFree | printtopdf.py:39-40 | neither fixed suffix contains `/` |
| PrintToPdf.JoinedFileName | printtopdf.py:39-40 | a slash-free base name plus suffix joins as directory prefix + base + suffix and sits directly in the directory |
| PrintToPdf.OutputPathsForUrl | printtopdf.py:35-40 | from a parsed link, each output is the directory prefix, then the base name of the link's path, then its own suffix |
| PrintToPdf.SamePathSameOutputs | printtopdf.py:34-40 | links with the same path but any scheme, host, parameters, query or fragment get identical output paths |
| PrintToPdf.BaseNameIgnoresOuterSlashes | printtopdf.py:36 | adding a leading or a trailing `/` to the path leaves the base name unchanged |
| PrintToPdf.SlashAndUnderscoreCollide | printtopdf.py:36 | the naming is not injective: paths `a/b` and `a_b` differ but get the same base name |
| PrintToPdf.SuffixesDifferFromEnd | printtopdf.py:39-40 | the suffixes are 16 and 27 characters long, and 16 characters from the end one has `_` where the other has `p` |
| PrintToPdf.FramedSuffixesNeverMeet | printtopdf.py:39-40 | no string ends both with `_save_as_pdf.pdf` after some prefix and with `_microsoft_print_to_pdf.pdf` after another |
| PrintToPdf.OutputKindsNeverCollide | printtopdf.py:39-40 | a save-as output never equals a print-dialog output, for any paths and directories |
| PrintToPdf.FramedEqualIff | printtopdf.py:39-40 | between the same prefix and the same suffix, two middles give equal strings if and only if the middles are equal; this is why one directory and one suffix make outputs collide exactly on equal base names |
| PrintToPdf.SaveAsCollidesIff | printtopdf.py:39 | in one directory, two links get the same save-as path (the one `page.pdf` writes, so the later link overwrites the earlier) if and only if their base names are equal |
| PrintToPdf.PrintToPdfCollidesIff | printtopdf.py:40 | in one directory, two links get the same print-dialog path exactly when their base names agree |
| PrintToPdf.DeriveBaseName | printtopdf.py:35-36 | the scanning implementation (strip bounds, copy with replacement, append `.pdf`) gives exactly `BaseName` |
| PrintToPdf.LoadLinks | printtopdf.py:54-56 | an accepted document is a dict whose `"links"` entry is a list equal to the result; every rejection is `ValueError` with the fixed message |
| PrintToPdf.LoadAcceptsLinksList | printtopdf.py:54-56 | every dict holding a list under `"links"` is accepted, and that list is returned whatever its elements and whatever other keys exist |
| PrintToPdf.LoadRejectsNonDict | printtopdf.py:54-55 | a document that is not a dict raises `ValueError` |
| PrintToPdf.LoadRejectsMissingLinks | printtopdf.py:54-55 | a dict without `"links"` raises `ValueError` |
| PrintToPdf.LoadRejectsNonListLinks | printtopdf.py:54-55 | a `"links"` entry that is not a list raises `ValueError` |
| PrintToPdf.LoadIgnoresOtherKeys | printtopdf.py:54-56 | adding or changing any key other than `"links"` does not change the outcome |

## Left out

- `app.py` as a whole (Flask routes, PDF text extraction, text splitting, embeddings, the LLM and
  the FAISS index): every step there is a call into a third-party library, with no logic of its
  own.
- Browser automation (printtopdf.py:7-25, 29-32, 43-48): launching Chromium, navigation,
  `page.pdf`, the simulated Ctrl+P/Enter, and `browser.close`. These are external I/O; the model
  only computes the save-as path handed to `page.pdf` and the print-dialog path that is logged.
- `urllib.parse.urlparse`: its result is the `ParsedUrl` input, so how a link string is split is
  not modelled.
- `main` (printtopdf.py:58-67): `os.makedirs`, the loop over the links, and the hard-coded file
  names. Opening the file and `json.load` are I/O; the decoded document is the `LoadLinks` input.
- `print` logging and the exception handlers that only log.
- Windows path joining (`ntpath`, backslash separator): `Join` follows the POSIX rule.
- JSON numbers are modelled as integers; floats are not modelled. The links check never looks
  inside numbers, so this makes no difference to it.
- What happens when a `"links"` element is not a string (the failure would occur inside
  `page.goto` or `urlparse`): those are library calls outside the model.
