# A verified model of three small utilities

This project models the core of three scripts from a personal utilities
repository and proves properties of that model in Dafny.

- **`gethttp3.py`** is a small HTTP file server with uploads.
  - GET and HEAD map the request path below the working directory
    (`translate_path`). They redirect directories requested without a
    trailing slash, serve `index.html` or `index.htm` when present, and
    otherwise list the directory. The names are sorted case-insensitively;
    links are URL-quoted and shown names are HTML-escaped. Files are served
    with a MIME type from `guess_type`.
  - POST parses a `multipart/form-data` body line by line (`deal_post_data`).
    It creates every uploaded file under a name that does not exist yet,
    appending a counter before the last dot. It copies the payload through a
    buffer flushed once it exceeds 1024 bytes, and cuts the final CRLF.
    `do_POST` then answers with a result page.
- **`mw2dj.js`** converts Merriam-Webster pronunciations to Daniel Jones
  symbols (`convertPhoneticSymbol`, `isStress`). It applies a fixed chain of
  25 replace-all rules, then treats each hyphen-separated syllable according
  to its stress mark.
- **`pdf_cid_labor.py`** replaces `(cid:N)` glyph references in extracted
  PDF text. It does this through a fixed glyph table `cmap`, the token
  grammar `CID_REGEX`, the id extraction of `replace_cid` and
  `gather_unknown_cid`, and the left-to-right `CID_REGEX.sub`.

The glyph table `Cid.CMap` is the dictionary of `pdf_cid_labor.py:8-94`, entry
for entry; it maps no id to `None`, so `gather_unknown_cid`'s `is None` test
never decides anything.

Modules:

| module | file | models |
|---|---|---|
| `Util` | `util.dfy` | shared sequences: `split`, `join`, `replaceAll`, `rfind`, ASCII `lower`, UTF-8 encoding and decoding, decimal numbers |
| `Paths` | `paths.dfy` | `posixpath.join`, `basename`, `dirname`, `normpath`, and `translate_path` |
| `Mime` | `mime.dfy` | `extensions_map`, `posixpath.splitext`, `guess_type` |
| `Files` | `files.dfy` | the file system as a value (`Store`) and as a mutable `Disk` object with `open(..., "wb")` and `write` |
| `Http` | `http.dfy` | the shape of a reply, and the HTML reply with its `Content-Length` |
| `Markup` | `markup.dfy` | `html.escape` and `urllib.parse.quote`, each with the decoding a browser applies |
| `Upload` | `upload.dfy` | `deal_post_data`: boundary, header, duplicate names, inner and outer loop; `do_POST`'s page |
| `Responder` | `responder.dfy` | the sort by `lower()`, `list_directory`, `send_head` |
| `Phonetic` | `phonetic.dfy` | `convertPhoneticSymbol` and `isStress` |
| `Cid` | `cid.dfy` | `cmap`, `CID_REGEX`, `replace_cid`, `gather_unknown_cid`, `CID_REGEX.sub`, `findall` |

## How the state is modelled

- **The upload handler.** It reads the request body line by line and
  writes files, so it is imperative Dafny.
  - `Upload.CopyPart` is the inner `while` loop.
  - `Upload.NextPart` is one pass of the outer loop.
  - `Upload.DealPostData` is the whole state machine.
  - Each method changes a `Files.Disk` and is proved equal to a pure
    specification: `InnerSpec`, `PartStep` and `PostSpec`.
  - The properties of the upload are lemmas about those specifications:
    what is stored, what is reported, and which file name is chosen.
- **`translate_path`, `list_directory` and `send_head`.** These are methods
  with their own loops (`Paths.TranslatePath`, `Responder.ListDirectory`,
  `Responder.SendHead`). Each is proved equal to its specification function.
- **`gather_unknown_cid` and `convertPhoneticSymbol`.** These are methods as
  well; the rest of those two scripts is pure functions.

The outcome of `deal_post_data` is one of three:

- the pair it returns: `Returned(status, info)`;
- an exception that escapes it (`Raised`). This happens when there is no `=`
  in Content-Type or no `filename="..."` in the part header;
- `Hung`. The source loops forever when the stream ends inside a part,
  because every further `readline()` returns `b""`.

## Model

| member | source | states |
|---|---|---|
| Mime.ExtensionsMap | gethttp3.py:25-35 | the table holds the system entries, except that `""` maps to `application/octet-stream` and `.py`, `.c`, `.h` map to `text/plain`; it holds nothing else |
| Mime.Ext | gethttp3.py:266 | the extension is empty, or a suffix of the path that starts with `.` and holds no `/` |
| Mime.GuessType | gethttp3.py:266-273 | definition: the merged table's entry for the exact extension, else for its lower-case form, else its `""` entry; properties in the rows below |
| Mime.GuessTypeSystem | gethttp3.py:266-273 | stated against the system table alone: an extension the server does not override gets the system's type for it, else the one for its lower-case form; an unknown extension whose lower-case form is `.py`, `.c` or `.h` is `text/plain`; one unknown in both forms is `application/octet-stream` |
| Mime.GuessTypeRange | gethttp3.py:266-273 | every answer is a type of the system table, `text/plain` or `application/octet-stream` |
| Mime.SourceIsText | gethttp3.py:28-35 | files ending in `.py`, `.c` or `.h` are `text/plain` whatever the system table says |
| Mime.NoExtIsOctetStream | gethttp3.py:266-273 | a path without extension is `application/octet-stream` |
| Mime.UpperCaseSource | gethttp3.py:269-271 | an extension such as `.PY`, unknown to the system table, falls back to the lower-case `.py` entry |
| Mime.DotFile | gethttp3.py:266 | a name of one dot and a dot-free word, such as `.bashrc`, has no extension |
| Mime.LastDot | gethttp3.py:266 | only the last dot of the last component starts the extension (`x.tar.gz` has `.gz`) |
| Paths.PathJoin | gethttp3.py:252 | joining an absolute name gives that name; otherwise the result starts with the directory and ends with the name |
| Paths.Basename | gethttp3.py:249 | the result holds no `/`, and a name without `/` is its own basename |
| Paths.DirnameJoin | gethttp3.py:103 | the directory of `d` joined with a plain name `n` is `d` |
| Paths.InitialSlashes | gethttp3.py:243 | `normpath` keeps at most two leading slashes, and some exactly when the path is absolute |
| Paths.NormCompsClean | gethttp3.py:243 | after `normpath` no component is empty or `.`; a rooted path keeps no `..`; a relative one keeps `..` only as a leading run; every component comes from the input |
| Paths.StripQuery | gethttp3.py:240-242 | the path keeps no `?` and no `#` |
| Paths.NonEmpty | gethttp3.py:245 | `filter(None, ...)` keeps exactly the non-empty words |
| Paths.NormPath | gethttp3.py:243 | definition: `posixpath.normpath`, keeping the leading slashes `InitialSlashes` gives, dropping empty and `.` components, letting `..` remove the component before it (kept at the start of a relative path, dropped at the root), and giving `.` for an empty result; properties in `Paths.NormCompsClean`, `Paths.NormPathTrailingSlash` |
| Paths.Translate | gethttp3.py:234-253 | definition: the working directory with each word of the normalised, query-free path joined on in turn, the basename of each word taken and `.` and `..` skipped; properties in `Paths.TranslateUnder` and the `Paths.Translate*` rows |
| Paths.TranslatePath | gethttp3.py:234-253 | the loop of `translate_path` computes `Translate(cwd, path)` |
| Paths.KeptClean | gethttp3.py:250-251 | the words that are kept are plain names, neither `.` nor `..` |
| Paths.AddWordsSlashed | gethttp3.py:246-252 | the loop appends `/word` for each kept word |
| Paths.WordsFree | gethttp3.py:244-249 | every word the loop sees is a plain name without `/` |
| Paths.TranslateUnder | gethttp3.py:234-253 | the translated path is the working directory followed by `/name` pieces, none of them empty, `.` or `..` and none holding a `/`, so it never leaves the directory; for a server started in `/` the pieces follow the root's own slash |
| Paths.TranslateIgnoresQuery | gethttp3.py:240-242 | whatever follows the first `?` or `#` does not change the translated path |
| Paths.TranslateEmpty | gethttp3.py:234-253 | the empty path translates to the working directory |
| Paths.TranslateSlash | gethttp3.py:234-253 | `/` translates to the working directory |
| Paths.TranslateTrailingSlash | gethttp3.py:241-253 | a trailing slash does not change the translated path |
| Paths.NormPathTrailingSlash | gethttp3.py:243 | `normpath` of `p/` equals `normpath` of `p` |
| Files.Store.Created | gethttp3.py:120 | `open(p, "wb")` leaves `p` an empty file and keeps the directories and links |
| Files.Store.Appended | gethttp3.py:136 | `f.write(data)` appends the data to the file and uses that much free space |
| Files.Store.Write | gethttp3.py:125 | a write succeeds exactly when the data fits, and then appends it |
| Files.Store.CreatedThenAppended | gethttp3.py:120-136 | a file created and then written holds exactly what was written |
| Files.Disk.Create | gethttp3.py:120 | the disk changes to the created store exactly when the file can be created, and otherwise stays as it was |
| Files.Disk.Write | gethttp3.py:136 | the disk appends exactly when the data fits, and otherwise stays as it was |
| Http.HtmlReply | gethttp3.py:64-69 | a 200 reply with `text/html`, a `Content-Length` equal to the body's length, and a UTF-8 body that decodes to the page |
| Upload.Boundary | gethttp3.py:73 | a boundary is found only in a Content-Type header, and holds no `=` |
| Upload.BoundaryOf | gethttp3.py:73 | the boundary is the text between the first `=` and the next `=` or the end |
| Upload.NoBoundary | gethttp3.py:73 | a Content-Type without `=` makes the handler raise |
| Upload.MarksOf | gethttp3.py:75-76 | the two marker lines are `--b\r\n` and `--b--\r\n` in UTF-8; the first is non-empty and the two differ |
| Upload.ReadLine | gethttp3.py:85 | `readline` returns the next line, and at the end of the stream an empty line without advancing |
| Upload.RStripNewlines | gethttp3.py:93 | the result is a prefix that ends in neither `\r` nor `\n`; only `\r` and `\n` were removed |
| Upload.LineEnd | gethttp3.py:95 | the length of the text before the first newline, which `.` cannot cross |
| Upload.MatchAt | gethttp3.py:95 | `filename="` matches at `i` exactly when a `"` follows on the same line; the group is the text up to the last such `"` (greedy `.*`) |
| Upload.HeaderName | gethttp3.py:93-95 | definition: the part header line decoded as UTF-8, its line end stripped, and the group of the first `filename="(.*)"` match; `None` where Python raises; properties in `Upload.FilenameOf`, `Upload.NoFilename`, `Upload.MatchAt` |
| Upload.FilenameOf | gethttp3.py:95 | the file name is the group of the first `filename="` in the header line |
| Upload.NoFilename | gethttp3.py:95 | a header without `filename="` makes the handler raise |
| Upload.CandidateInjective | gethttp3.py:107-110 | different counters give different candidate names |
| Upload.TargetInjective | gethttp3.py:110-111 | different counters give different candidate paths |
| Upload.FreeIndexFree | gethttp3.py:105-112 | the loop's counter ends at a free candidate, and every earlier candidate exists |
| Upload.Resolve | gethttp3.py:103-112 | the chosen file name does not exist |
| Upload.ResolveFirstFree | gethttp3.py:103-112 | the chosen name is `path/name` when that is free; otherwise it is the first free `prefix_k suffix`, and all earlier ones exist |
| Upload.ResolveName | gethttp3.py:103-112 | the `while os.path.exists` loop computes `Resolve` |
| Upload.NoDotExample | gethttp3.py:107-110 | without a dot, the counter goes before the last character (`README` becomes `READM_1E`) |
| Upload.LastDotNameExample | gethttp3.py:107-110 | the counter goes before the last dot (`a.tar.gz` becomes `a.tar_2.gz`) |
| Upload.AbsoluteNameEscapes | gethttp3.py:103-111 | an absolute upload name ignores the served directory: a free `/x/y` is written as `/x/y` |
| Upload.Trim2 | gethttp3.py:125 | `buf[:-2]` drops the last two bytes; a shorter buffer becomes empty |
| Upload.InnerSpec | gethttp3.py:118-138 | the inner loop only moves forward in the stream and keeps the open file |
| Upload.CopyPart | gethttp3.py:118-138 | the inner loop leaves the disk, stop reason and position that `InnerSpec` gives |
| Upload.FillFacts | gethttp3.py:134-138 | the flushed chunks followed by the buffer are exactly the lines read; every flushed chunk is over 1024 bytes; the buffer ends with the last line |
| Upload.FlushInvisible | gethttp3.py:125-138 | flushing the buffer early does not change what is written: the file gets all the lines less the final CRLF |
| Upload.InnerStep | gethttp3.py:134-138 | one ordinary line fails the write, or flushes the buffer, or grows it, as its size and the free space decide |
| Upload.InnerRun | gethttp3.py:121-138 | up to the next marker line, the file gets the payload less its final CRLF; when that does not fit, the write fails |
| Upload.PartStored | gethttp3.py:118-138 | the part's file holds its payload lines less the final CRLF, or the write fails when they do not fit |
| Upload.PartStep | gethttp3.py:93-143 | a pass that continues moves forward in the stream |
| Upload.AfterCopy | gethttp3.py:122-143 | the outer loop goes on exactly when the part ended at a `--b\r\n` line, and from there |
| Upload.NextPart | gethttp3.py:88-143 | one pass of the outer loop does what `PartStep` says, and leaves the disk it names |
| Upload.OuterSpec | gethttp3.py:87-143 | definition: the outer loop from a line just read: a line other than `--b\r\n` ends it with `Content NOT begin with boundary`, otherwise one `PartStep` and, when that continues, the loop again; properties in `Upload.NotBegin`, `Upload.PartOutcome`, `Upload.CreateFails` |
| Upload.PostSpec | gethttp3.py:72-144 | definition: `deal_post_data` as a value: raise without a boundary, else the outer loop on the first line with report `"\n"` below the translated request path; properties in `Upload.UploadOne`, `Upload.PostStart`, `Upload.NotBegin` |
| Upload.DealPostData | gethttp3.py:72-144 | the whole handler returns what `PostSpec` says and leaves the disk it names |
| Upload.NotBegin | gethttp3.py:85-91 | a body that does not start with `--b\r\n` fails with `Content NOT begin with boundary` and writes nothing |
| Upload.HeaderRaises | gethttp3.py:93-95 | a header line without a file name raises and writes nothing |
| Upload.EmptyName | gethttp3.py:96-101 | an empty file name fails with `Can't find out file name...` and writes nothing |
| Upload.CreateFails | gethttp3.py:118-143 | when the file cannot be opened, the handler fails with `Exception!` and the file name |
| Upload.PartOutcome | gethttp3.py:93-143 | a part ending in `--b--\r\n` succeeds and stores its payload; one ending in `--b\r\n` stores it and continues; one that does not fit fails with `Exception!` |
| Upload.PostStart | gethttp3.py:72-87 | after the first marker line, the handler is the outer loop with report `"\n"` |
| Upload.UploadOne | gethttp3.py:72-144 | a well-formed single-file upload succeeds, reports the chosen name, and stores the payload less its final CRLF under that name; every other file is unchanged |
| Upload.AppendedTwice | gethttp3.py:136 | two writes append the same as one write of both |
| Upload.WrittenAtMost | gethttp3.py:125-138 | the loop never writes more than it read |
| Upload.ResultPage | gethttp3.py:51-62 | definition: the result page with `Success` or `Failed` as title and heading, the report with its newlines as `<br>`, and a link back to the referer (`None` when absent); properties in `Upload.PageTitle`, `Upload.PageHasNoRawReportNewline` |
| Upload.DoPost | gethttp3.py:47-70 | a returned result gets a 200 HTML page holding the result page; a raise or a hang gets no reply |
| Upload.PageHasNoRawReportNewline | gethttp3.py:55 | every newline of the report becomes `<br>` |
| Upload.PageTitle | gethttp3.py:51-59 | the page title says Success or Failed as the status says |
| Responder.SortByLower | gethttp3.py:198 | definition: insertion sort by the lower-cased name, each name inserted after the names whose keys are not greater; properties in `Responder.SortByLowerCorrect` |
| Responder.InsertPerm | gethttp3.py:198 | inserting a name adds exactly that name |
| Responder.SortPerm | gethttp3.py:198 | sorting keeps the same names, with their multiplicities |
| Responder.SortedSort | gethttp3.py:198 | the sorted list is ordered by lower-cased name |
| Responder.SortStable | gethttp3.py:198 | names with equal keys keep their order (the sort is stable) |
| Responder.SortByLowerCorrect | gethttp3.py:198 | the sort is sorted, a permutation, and stable |
| Responder.SortExample | gethttp3.py:198 | `b.txt, A_dir, a.txt, B.txt` sort to `a.txt, A_dir, b.txt, B.txt` |
| Responder.ExampleKeys | gethttp3.py:198 | `a.txt` comes before `A_dir` (`.` sorts before `_`), which comes before `b.txt` |
| Responder.ListingSpec | gethttp3.py:187-232 | definition: 404 `No permission to list directory` for a directory that cannot be listed, otherwise the HTML page with the escaped request path as title and one entry per name in sorted order; properties in `Responder.ListingContents` |
| Responder.LinkName | gethttp3.py:212-217 | definition: the name, with `/` appended for a directory; properties in `Responder.ParseItemsOf`, `Responder.ListingContents` |
| Responder.DisplayName | gethttp3.py:212-220 | definition: the name with `@` appended for a symbolic link, else with `/` for a directory; properties in `Responder.ParseItemsOf`, `Responder.ListingContents` |
| Responder.ListDirectory | gethttp3.py:187-232 | the method's loop builds the page `ListingSpec` describes |
| Responder.ListingContents | gethttp3.py:193-231 | an unreadable directory gives 404 `No permission to list directory`; otherwise a 200 page whose entries read back as the sorted names, each with its link and its shown name |
| Responder.ParseItemsOf | gethttp3.py:211-224 | the entries read back as exactly the links and names of the listed files, in order |
| Responder.ParseItem | gethttp3.py:221-223 | one entry reads back as its decoded link and its unescaped name |
| Responder.Entries | gethttp3.py:211 | one entry per name |
| Responder.FileReply | gethttp3.py:170-185 | definition: 200 with the file's bytes, its guessed type and its length, or 404 `File not found` when it is not a file; properties in `Responder.FileReplyBody` |
| Responder.Route | gethttp3.py:156-185 | definition: for the translated path, a 301 to the path plus `/` for a directory asked for without one, else `index.html`, else `index.htm`, else the listing, and any other path as a file; properties in `Responder.RouteCodes`, `Responder.RouteBodies`, `Responder.IndexIsDirectory`, `Responder.RedirectDirectory` |
| Responder.HeadSpec | gethttp3.py:146-185 | definition: `Route` on the translated request path; properties in `Responder.RedirectDirectory` and the `Route` rows |
| Responder.SendHead | gethttp3.py:146-185 | the method's routing gives the reply `HeadSpec` describes |
| Responder.RouteCodes | gethttp3.py:154-185 | every answer is a 200, a 301 or a 404, and it is a 301 exactly when a directory is asked for without a trailing slash |
| Responder.RouteBodies | gethttp3.py:154-185 | a 200 carries the bytes of the requested file, of the directory's `index.html` or `index.htm`, or the directory's listing, and nothing else |
| Responder.IndexIsDirectory | gethttp3.py:163-175 | a directory called `index.html` is found by `os.path.exists` but cannot be opened: the answer is 404 `File not found`, even when `index.htm` or a listing could have been served |
| Responder.FileReplyBody | gethttp3.py:170-185 | a served file gets 200, its bytes, its guessed type and its length; a file that cannot be opened gets 404 `File not found` |
| Responder.RedirectDirectory | gethttp3.py:156-162 | a directory without a trailing slash answers 301 to the path plus `/`, and following it names the same directory without a further redirect |
| Responder.TrailingSlashNotRedirected | gethttp3.py:156-169 | a path ending in `/` is never redirected |
| Responder.ListingCode | gethttp3.py:226-231 | a listing that is sent has code 200 |
| Markup.Escape | gethttp3.py:222 | definition: `html.escape`, character by character: `&`, `<`, `>`, `"` and `'` become `&amp;`, `&lt;`, `&gt;`, `&quot;` and `&#x27;`; properties in the `Markup.Escape*` rows and `Markup.UnescapeEscape` |
| Markup.Quote | gethttp3.py:222 | definition: `urllib.parse.quote`: the UTF-8 bytes of the text, each safe byte as itself and every other as `%XX`; properties in `Markup.QuoteSafe`, `Markup.PercentDecodeQuote` |
| Markup.EscapeNoMarkup | gethttp3.py:222 | escaped text has no `<`, `>`, `"` or `'`: the only special character left is `&` |
| Markup.UnescapeEscape | gethttp3.py:222 | a browser shows exactly the original name |
| Markup.EscapeAppend | gethttp3.py:222 | escaping works piece by piece |
| Markup.EscapePlain | gethttp3.py:222 | names without special characters are shown unchanged |
| Markup.EscapeTag | gethttp3.py:222 | `<name>` becomes `&lt;name&gt;` |
| Markup.EscapeAmpQuote | gethttp3.py:222 | `&` becomes `&amp;` and `'` becomes `&#x27;` |
| Markup.QuoteSafe | gethttp3.py:222 | a quoted link holds only safe ASCII and `%` escapes, so it cannot close the `href` attribute |
| Markup.PercentDecodeQuote | gethttp3.py:222 | percent-decoding the quoted link gives back the UTF-8 bytes of the name |
| Markup.QuoteExample | gethttp3.py:222 | a space is quoted as `%20` and `/` is kept |
| Phonetic.Rewrite | mw2dj.js:21-59 | definition: the 25 rules applied in order, each replacing every occurrence of its pattern; properties in the `Phonetic.Rewrite*` and `Phonetic.Apply*` rows |
| Phonetic.Rule | mw2dj.js:21-59 | every rule's pattern is non-empty |
| Phonetic.RewriteKeepsStress | mw2dj.js:21-59 | no rule mentions a stress mark, so the chain keeps every `ˈ` and `ˌ` |
| Phonetic.StressSyllableCount | mw2dj.js:64-73 | the syllable rewrite neither adds nor removes stress marks |
| Phonetic.ConvertKeepsStress | mw2dj.js:17-84 | the converted text has each of the two stress marks that `isStress` recognises exactly as often as the original |
| Phonetic.IsStress | mw2dj.js:82-84 | definition: the character is `ˈ` (712) or `ˌ` (716); properties in `Phonetic.StressedSyllable`, `Phonetic.UnstressedSyllable`, `Phonetic.ConvertKeepsStress` |
| Phonetic.StressSyllable | mw2dj.js:64-73 | definition: in a syllable starting with a stress mark `ē` becomes `iː` and then `ə` becomes `ʌ`; in any other `ē` becomes `i`; properties in `Phonetic.StressedSyllable`, `Phonetic.UnstressedSyllable`, `Phonetic.StressSyllableCount` |
| Phonetic.Trim | mw2dj.js:18 | definition: `String.prototype.trim`, both ends; properties in `Phonetic.TrimStart`, `Phonetic.TrimEnd` |
| Phonetic.Converted | mw2dj.js:21-75 | definition: the rewritten text split at `-`, each syllable treated by `StressSyllable`, joined with `-`; properties in `Phonetic.ConvertedSyllables`, `Phonetic.SyllableCount`, `Phonetic.ConvertKeepsStress` |
| Phonetic.TrimStart | mw2dj.js:18 | the leading JavaScript white space is removed, and nothing else |
| Phonetic.TrimEnd | mw2dj.js:18 | the trailing JavaScript white space is removed, and nothing else |
| Phonetic.MapSyllables | mw2dj.js:62-73 | each syllable is treated on its own, and none is added or lost |
| Phonetic.ConvertPhoneticSymbol | mw2dj.js:17-80 | the original trimmed text, ` \| `, the converted text and a no-break space |
| Phonetic.ApplySplit | mw2dj.js:21-59 | running the chain in two stretches is running it at once |
| Phonetic.ApplyAbsent | mw2dj.js:21-59 | rules whose patterns cannot start in the text change nothing |
| Phonetic.ApplyCount | mw2dj.js:21-59 | a character that no rule mentions keeps its number of occurrences |
| Phonetic.RewriteKeepsHyphens | mw2dj.js:21-62 | the chain keeps every hyphen, so the syllables stay the same in number |
| Phonetic.RewriteRemovesY | mw2dj.js:50-59 | no `y` survives the chain, although `j` becomes `dʒ` before `y` becomes `j` |
| Phonetic.RewriteNoAeUpsilon | mw2dj.js:36-59 | no `æʊ` survives: the repair rule removes it and no later rule creates one |
| Phonetic.RewriteSchwaR | mw2dj.js:21 | `ər` becomes `ɚ` |
| Phonetic.RewriteOi | mw2dj.js:23-31 | `ȯi` becomes `ɔɪ`, not `ɔːɪ` |
| Phonetic.RewriteJ | mw2dj.js:50 | `j` becomes `dʒ` |
| Phonetic.RewriteY | mw2dj.js:50-54 | `y` becomes `j`, not `dʒ` |
| Phonetic.RewriteAu | mw2dj.js:33-39 | `au̇` becomes `aʊ`, by way of `æʊ` and the repair rule |
| Phonetic.StressedSyllable | mw2dj.js:66-68 | a stressed syllable keeps its stress mark and loses every `ē` and `ə` |
| Phonetic.UnstressedSyllable | mw2dj.js:69-71 | an unstressed syllable loses every `ē` and keeps its `ə` |
| Phonetic.StressSyllableNoHyphen | mw2dj.js:64-73 | treating a syllable adds no hyphen |
| Phonetic.ConvertedSyllables | mw2dj.js:62-74 | the converted text's syllables are the rewritten syllables, each treated |
| Phonetic.SyllableCount | mw2dj.js:62-74 | conversion keeps the number of syllables |
| Cid.WsLen | pdf_cid_labor.py:97 | a greedy `\s*` takes the longest blank prefix |
| Cid.DigitLen | pdf_cid_labor.py:97 | a greedy `\d+` takes the longest digit prefix |
| Cid.RunAppend | pdf_cid_labor.py:97 | the automaton reads a concatenation piece by piece |
| Cid.TokenOfParts | pdf_cid_labor.py:97 | `(`, blanks, `cid`, blanks, `:`, blanks, digits, blanks, `)` is a token |
| Cid.Parse | pdf_cid_labor.py:97 | every token splits into those pieces |
| Cid.IsToken | pdf_cid_labor.py:97 | definition: the automaton for `\(\s*cid\s*:\s*\d+\s*\)` accepts the whole text; properties in `Cid.TokenGrammar`, `Cid.MatchLenIff` |
| Cid.TokenGrammar | pdf_cid_labor.py:97 | the automaton accepts exactly the texts of `CID_REGEX` |
| Cid.MatchLen | pdf_cid_labor.py:97 | a match at the front is a non-empty token prefix |
| Cid.MatchLenIff | pdf_cid_labor.py:97 | the match at the front is exactly a token prefix, so there is at most one |
| Cid.IdOf | pdf_cid_labor.py:103 | definition: `int(str_cid.split(":")[1].strip(")").strip())` on a token; properties in `Cid.IdOfParts` |
| Cid.Replace | pdf_cid_labor.py:109-113 | definition: `cmap.get(cid, str_cid)`: the table's text for the token's id, else the token itself; properties in `Cid.ReplaceParts` |
| Cid.IdOfParts | pdf_cid_labor.py:103 | the id read from a token is the value of its digits |
| Cid.StripWsOf | pdf_cid_labor.py:111 | `strip()` of blanks, digits, blanks leaves the digits |
| Cid.AfterColonOfParts | pdf_cid_labor.py:111 | `split(":")[1]` of a token is what follows its colon |
| Cid.StripParensOfParts | pdf_cid_labor.py:111 | `strip(")")` removes the closing parenthesis |
| Cid.ReplaceParts | pdf_cid_labor.py:109-113 | a known id becomes the table's text, and an unknown token stays as it is |
| Cid.Sub | pdf_cid_labor.py:135 | definition: the text scanned left to right into plain characters and the longest token at each position, each token replaced by `Replace`; properties in `Cid.SubAround`, `Cid.SubToken`, `Cid.SubUnchanged`, `Cid.SubNoParen` |
| Cid.Scan | pdf_cid_labor.py:135 | the scan covers the text exactly, and every matched piece is a token |
| Cid.FindAll | pdf_cid_labor.py:122 | `findall` returns tokens only |
| Cid.RenderAppend | pdf_cid_labor.py:135 | replacing works piece by piece |
| Cid.ScanAround | pdf_cid_labor.py:135 | a token is matched as a whole, wherever it stands |
| Cid.SubAround | pdf_cid_labor.py:135 | `sub` replaces a token in place and treats the text around it on its own; `findall` lists it between the tokens before and after |
| Cid.SubUnchanged | pdf_cid_labor.py:135 | text without known ids is unchanged |
| Cid.SubNoParen | pdf_cid_labor.py:135 | text without `(` holds no token and is unchanged |
| Cid.SubToken | pdf_cid_labor.py:135 | one token between plain texts is replaced and the rest kept |
| Cid.LigatureId | pdf_cid_labor.py:97-111 | blanks are allowed: `( cid : 426 )` is glyph 426 |
| Cid.LigatureToken | pdf_cid_labor.py:65 | glyph 426 is the ligature `ttf` |
| Cid.LigatureExample | pdf_cid_labor.py:135 | `x( cid : 426 )y` becomes `xttfy` |
| Cid.GatherUnknown | pdf_cid_labor.py:100-106 | the result lists each token of the set whose id is not in the table, exactly once |

## Left out

- Sockets, the HTTP request parser and `BaseHTTPRequestHandler` are not
  modelled. A request is its path, its Content-Type and referer headers, and
  its body as a sequence of lines. A reply is a value (`Http.Response`)
  rather than bytes written to `wfile`.
- `do_GET` writing the body and `do_HEAD` omitting it are not modelled.
  Both are the reply of `send_head`.
- The `print` calls of `do_POST` and of `pdf_cid_labor.py` are left out,
  as are their file reads and writes. The script part of
  `pdf_cid_labor.py` (lines 116-138) is the composition of `FindAll`, a set,
  `GatherUnknown` and `Sub`.
- The `Last-Modified` header and `os.fstat` are left out, because there is
  no clock. `Content-Length` is the length of the file's bytes.
- The body of the error page sent by `send_error` is not modelled. An error
  is its code and message (`ErrorReply`).
- The system MIME table that `mimetypes.init()` reads is a parameter,
  `types`.
- `urllib.parse.unquote` is taken as the identity: request paths are
  assumed to be already percent-decoded.
- `os.path.splitdrive` is the identity, as on POSIX.
- The file system is keyed by the path strings the server builds. The
  operating system's own resolution of `..`, `//` and symbolic links is not
  modelled. `os.getcwd()` is the parameter `cwd`.
- Failure of `open(..., "wb")` is modelled as "not a creatable path".
  Failure of `write` is modelled as "the data exceeds the free space", and
  a failed write writes nothing. Partial writes and other I/O errors are
  not modelled.
- Concurrency between requests is not modelled. This includes the
  check-then-create race of the duplicate-name loop.
- When the stream ends inside a part, the source reads empty lines
  forever. The model stops there with the outcome `Hung`, after the one
  flush that can still happen.
- `str.lower()` is ASCII-only, and so are `\d` and `int()`'s digits. `\s`
  and `str.strip()` use Python's `str.isspace` set.
- `html.escape` is modelled character by character. This is the same as
  Python's sequence of `replace` calls, `&` first.
- `urllib.parse.quote` is modelled with its default safe set: letters,
  digits, `_.-~` and `/`.
- `list.sort(key=str.lower)` is a library call. It is modelled as a stable
  insertion sort (`Responder.SortByLower`). A stable sort has only one
  possible result, so this is exact.
- The wiring of `mw2dj.js` to the page is left out: `$(document).ready`
  and the DOM updates.
- The other scripts of the repository are not part of this model.
- Cid.IdOf: defined on tokens only. `gather_unknown_cid` and `replace_cid`
  are only ever given `CID_REGEX` matches.
- Cid.GatherUnknown: states which tokens the result holds and that each
  appears once, but not their order, because Python does not fix the
  iteration order of a set.
- Upload.HeaderName: the header line is decoded as UTF-8 and a line that
  does not decode raises, as in Python. The `(.*)` group is found as the
  text before the last `"` of the line after the first `filename="` that
  has one.

Where the code and its description differ, the model follows the code:

- A POST without a `referer` header links back to `None`, which is what
  `str.format` prints for the value, rather than to `/`.
- Names sort by `lower()`, and `.` (46) sorts before `_` (95). So `a.txt`
  sorts before `A_dir`: the listing of `b.txt`, `A_dir`, `a.txt` is
  `a.txt`, `A_dir`, `b.txt`.
- `guess_type` tries the extension as written before its lower-case form.
- The duplicate-name loop uses a counter starting at 1, not a random token.
  It joins the name the client sent, unsanitised, with the served
  directory, so an absolute name escapes it (`Upload.AbsoluteNameEscapes`).
- Directory listings show neither sizes nor timestamps.
- Whether to redirect is decided on the raw request path, query string
  included.
