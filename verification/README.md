# PDF manual scraper — a Dafny model

The program renders one listing page in a headless browser and pulls every
`http://…​.pdf` / `https://…​.pdf` link out of the markup with a regular
expression. It removes duplicate links and drops those that fail two URL
checks. It downloads each remaining link into an output directory, under a
file name derived from the URL. A file that is already there is skipped. A
response that is not a 200 with a PDF-like Content-Type, or that has an empty
body, is rejected.

This project models that core in Dafny and proves properties of the model:

- `text.dfy`, module `Text`: the pieces of Go's `strings` package the program
  uses. These are ASCII lower-casing, `Contains` and `ReplaceAll(s, pat, "")`.
- `paths.dfy`, module `Paths`: `filepath.Base` and `filepath.Ext` on
  '/'-separated paths.
- `filename.dfy`, module `Filename`: `urlToFilename`, step by step, as
  written. It also holds the evidently intended version of the extension
  deletion (see Findings).
- `extractor.dfy`, module `Extractor`: `extractPDFUrls`. The expression
  `https?://[^\s'"]+\.pdf` is run by `FindAllString` as an explicit scanner.
  A declarative description of the matches it must return sits beside it.
  The scanner is proved to meet that description, and the description is
  proved to have exactly one answer.
- `dedup.dfy`, module `Duplicates`: `removeDuplicatesFromSlice`, as a loop
  with a seen-set. It is checked against a reference definition.
- `download.dfy`, module `Download`: `fileExists` and `downloadPDF`, as a pure
  function. It maps the output directory (a map from entry names to files)
  and what the network and the file system answer to an outcome and a new
  directory.
- `scraper.dfy`, module `Scraper`: the body of `main` after the page has been
  rendered. This covers extraction, removing duplicates, the two URL checks
  and the download loop, which threads the directory from one URL to the
  next.

## Model

| member | source | states |
|---|---|---|
| Text.Contains | main.go:228-229 | the substring test is true exactly when the pattern occurs at some position of the string (both directions) |
| Text.ToLowerAscii | main.go:172 | the length is kept, no upper-case ASCII letter is left, each upper-case ASCII letter is moved 32 code points up, to its lower-case form, and every other character is kept |
| Text.RemoveAll | main.go:160-162 | the result is never longer than the input, and an empty pattern leaves the input unchanged, as `strings.ReplaceAll` does; for a non-empty pattern, Text.RemoveAllNone and Text.RemoveAllFirst fix what it deletes |
| Text.RemoveAllNone | main.go:160-162 | a non-empty pattern that occurs nowhere in the string leaves it unchanged |
| Text.RemoveAllFirst | main.go:160-162 | at the leftmost occurrence of a non-empty pattern, deletion keeps everything before it, drops the occurrence and carries on after it, so occurrences are found left to right without overlap ("aaa" minus "aa" is "a") |
| Text.RemoveAllSingle | main.go:160-162 | deleting a one-character pattern agrees with the independent definition that drops every copy of that character |
| Text.RemoveAllAbsent | main.go:160-162 | a pattern with a character that the string lacks is never found, so deleting it changes nothing |
| Text.RemoveAllTrailing | main.go:160-162 | when the pattern occurs in `s + pat` only as its final copy, deleting it gives back exactly `s` |
| Text.RemoveAllKeepsAbsent | main.go:160-162 | deleting occurrences never introduces a character that was not in the input |
| Text.ToLowerAsciiFixesLower | main.go:194 | lower-casing a string with no upper-case letter returns it unchanged |
| Paths.Base | main.go:155-157 | the base name is "." for the empty path and "/" for a path of slashes; otherwise it is the last element after trailing slashes are removed; it is never empty |
| Paths.ExtSpec | main.go:166-168 | the extension is empty exactly when the last element has no '.'; otherwise it is the suffix of the last element that starts at its final '.' |
| Paths.Ext | main.go:166-168 | the extension of a path; its meaning is stated by Paths.ExtSpec |
| Paths.BaseHasNoSlash | main.go:155-157 | a base name is "/" or free of '/', and an extension never holds '/' |
| Filename.ReplaceNonAlnum | main.go:177-178 | the length is kept; a position becomes '_' exactly when its character is not in `[a-z0-9]`, and `[a-z0-9]` characters are kept |
| Filename.CollapseUnderscores | main.go:180 | no two underscores are adjacent in the result, and it keeps the non-underscore characters of the input in order; a string without "__" is returned unchanged; the result is no longer than the input and keeps its first character |
| Filename.CollapsePair | main.go:180 | replacing one "__" of the input by "_" does not change the result, so with the identity on strings without "__" the result is fixed for every input |
| Text.TrimLeft | main.go:181 | the result is a suffix of the input that does not start with the character, and everything removed is that character |
| Text.TrimRight | main.go:181 | the result is a prefix of the input that does not end with the character, and everything removed is that character |
| Filename.TrimUnderscores | main.go:181 | the result neither starts nor ends with '_', and it occurs in the input at a position where everything before and after it is '_': only leading and trailing underscores are removed |
| Filename.SanitizedStem | main.go:177-181 | the sanitized element uses only `[a-z0-9_]`, has no doubled underscore and no underscore at either end |
| Filename.SanitizedStemContent | main.go:177-181 | with its underscores dropped, the sanitized element is exactly the `[a-z0-9]` characters of the input, in order |
| Filename.Segment | main.go:172-173 | the last path element of the lower-cased URL; Filename.FilenameShape states how the name is built from it |
| Filename.UrlToFilename | main.go:171-190 | `urlToFilename` as written; its contract is carried by Filename.FilenameShape, Filename.FilenameIsFlatLowercase, Filename.PdfUrlFilename and Filename.SameLastElementSameName |
| Filename.NameFromSegment | main.go:174-189 | the naming steps after the last path element is taken; Filename.AsWrittenRenamesSafeName and Filename.ExtensionlessJoinsWords state what they do to safe and extensionless elements |
| Filename.SegmentNameShape | main.go:174-189 | for a last element: the name is its sanitized stem plus its extension; with no extension the name is exactly the element's `[a-z0-9]` characters, in order |
| Filename.FilenameShape | main.go:171-190 | a name is the sanitized stem of the URL's last element plus that element's extension; with no extension it is exactly the `[a-z0-9]` characters of the last element, in order |
| Filename.FilenameIsFlatLowercase | main.go:171-190 | a name never contains '/' or an upper-case letter, so the second lower-casing in `downloadPDF` changes nothing |
| Filename.PdfUrlFilename | main.go:174-189 | a URL ending in ".pdf" is named by the sanitized stem of its last element followed by ".pdf" |
| Filename.SameLastElementSameName | main.go:172-173 | two URLs with the same last path element get the same file name, whatever their hosts and directories |
| Filename.AsWrittenRenamesSafeName | main.go:175-187 | as written, an already-safe last element `stem.x` is saved as `stem_x.x`, never as `stem.x` |
| Filename.ManualExample | main.go:171-190 | as written, `https://Example.com/Docs/Manual_V2.PDF` is saved as "manual_v2_pdf.pdf" |
| Filename.ExtensionlessJoinsWords | main.go:175-187 | with no extension, the deletion removes every underscore, so `…/a-b` is saved as "ab" |
| Filename.IntendedKeepsSafeName | main.go:175-187 | with the corrected deletion an already-safe last element `stem.x` is its own file name, as long as the stem does not contain "_x" |
| Filename.IntendedPdfUrlFilename | main.go:174-187 | with the corrected deletion a ".pdf" URL is named by its stem with the "_pdf" tokens removed, followed by ".pdf" |
| Extractor.SchemeLength | main.go:101 | the length of `https?://` at a position: 8 when "https://" is there (the optional 's' is tried first), 7 for "http://", 0 otherwise; it always fits in the text. Extractor.MatchAtSound and Extractor.MatchAtLongest rely on it |
| Extractor.MatchAt | main.go:101 | one matching attempt at a position; a match it returns is at least 12 characters long and inside the text, and Extractor.MatchAtSpec states that it is the longest match there |
| Extractor.Scan | main.go:101-102 | `FindAllString` as positions; every span it returns starts at or after the starting position and ends inside the text, and Extractor.ScanIsLeftmostLongest states the rest |
| Extractor.ExtractPdfUrls | main.go:99-105 | `extractPDFUrls`; Extractor.ExtractedUrlsAreMatches and Extractor.ExtractedUrlShape state what it returns |
| Extractor.RunEnd | main.go:101 | `[^\s'"]+` runs greedily, up to the first whitespace, quote or end of text |
| Extractor.LastPdfEnd | main.go:101 | backtracking gives back characters until the match ends at the last ".pdf" of the run |
| Extractor.MatchAtSpec | main.go:101 | an attempt at a position gives no match exactly when none starts there; otherwise it gives the longest one |
| Extractor.ScanIsLeftmostLongest | main.go:101-102 | the scan returns increasing, non-overlapping spans, each the longest match at its start, and every match in the text overlaps a returned span |
| Extractor.LeftmostLongestUnique | main.go:101-102 | at most one sequence of spans fits that description |
| Extractor.ScanIsTheAnswer | main.go:99-105 | the scan fits the description, and any sequence that fits it is the scan |
| Extractor.ExtractedUrlsAreMatches | main.go:99-105 | each returned URL is the text of its span, and it matches the expression |
| Extractor.ExtractedUrlShape | main.go:101-104 | each returned URL starts with "http://" or "https://", ends with ".pdf" and contains no whitespace or quote |
| Extractor.ExtractFromShort | main.go:99-105 | a text shorter than the shortest possible match, the empty page included, yields no URLs |
| Duplicates.RemoveDuplicates | main.go:131-141 | the seen-set loop computes the reference definition; its result has no duplicates and the same elements as the input |
| Duplicates.DedupElements | main.go:131-141 | an element is in the result exactly when it is in the input |
| Duplicates.DedupNoDuplicates | main.go:131-141 | no element occurs twice in the result |
| Duplicates.DedupFirstSeenOrder | main.go:131-141 | the result lists elements in the order of their first occurrence in the input |
| Duplicates.DedupOfDistinct | main.go:131-141 | an input without duplicates comes back unchanged |
| Duplicates.DedupIdempotent | main.go:131-141 | removing duplicates twice gives the same as once |
| Download.NamesOutputDir | main.go:195 | the names "" and ".", which `filepath.Join` resolves to the output directory itself |
| Download.Lookup | main.go:195 | what `os.Stat` of the joined path finds: the directory for "" and ".", the named entry when there is one, nothing otherwise; Download.OutputDirNeverSaved states the consequence for "" and "." |
| Download.CanCreate | main.go:245-249 | `os.Create` succeeds only when the environment allows it and the joined path is not a directory; Download.DownloadFollowsGates places it after the empty-body check |
| Download.OutputDirNeverSaved | main.go:195-249 | the names "" and "." never count as an existing file, and saving under them always fails, leaving the directory unchanged |
| Download.FileExists | main.go:90-96 | the path exists and is not a directory; Download.SkipIffFileExists states how it decides a skip |
| Download.SaveAs | main.go:197-258 | the body of `downloadPDF` once the name is known; Download.DownloadFollowsGates, Download.DoneSavesBody, Download.FailureLeavesNoFile and Download.OnlyTargetTouched state its outcome |
| Download.DownloadPdf | main.go:193-259 | `downloadPDF`; Download.DownloadSkipsExisting, Download.DownloadKeepsOthers and Download.DownloadDoneSaves state its outcome |
| Download.TargetNameIsUrlFilename | main.go:194-195 | the saved name equals `urlToFilename`'s result and has no '/', so the joined path is an entry of the output directory, or the directory itself when the name is "" or "." (Download.PdfNameIsEntry rules that out for extracted URLs) |
| Download.TargetNameNotParent | main.go:194-195 | the saved name is never "..", so joining it never reaches the parent of the output directory |
| Download.TargetName | main.go:194 | the name `downloadPDF` saves under; Download.TargetNameIsUrlFilename states that it is `urlToFilename`'s result with no '/' |
| Download.AcceptedContentType | main.go:227-232 | the header is accepted when it contains "binary/octet-stream" or "application/pdf" (Text.Contains states what containing means); Download.DownloadFollowsGates states that a response failing it is rejected after the status check and before the body is read |
| Download.DownloadFollowsGates | main.go:202-258 | once the file is absent, the outcome is the first failing check in source order (request, transport, status 200, Content-Type, read, empty body, create, write); a download is done exactly when all pass |
| Download.SkipIffFileExists | main.go:197-200 | a download is skipped exactly when the target exists as a file that is not a directory; a skip leaves the directory unchanged and does not depend on the network |
| Download.DoneSavesBody | main.go:234-258 | `true` means every check passed and the body was non-empty; the reported count is the body's length and the file holds exactly the body |
| Download.FailureLeavesNoFile | main.go:202-255 | each failure before or at file creation leaves the directory unchanged; a failed write leaves a file holding a prefix of the body |
| Download.OnlyTargetTouched | main.go:193-259 | only the target entry can change, and an existing file is never overwritten |
| Download.RepeatAfterDoneSkips | main.go:193-259 | after a successful download, the same name is skipped next time, whatever the network answers |
| Download.DownloadSkipsExisting | main.go:194-200 | a URL whose target file exists is skipped and leaves the directory unchanged |
| Download.DownloadKeepsOthers | main.go:193-259 | a download changes no entry other than its own target and no existing file |
| Download.DownloadDoneSaves | main.go:245-258 | after `true`, the URL's target file holds the downloaded body |
| Download.PdfNameIsEntry | main.go:194-195 | a ".pdf" URL is saved under a name ending in ".pdf" that has no '/' and is not the output directory itself |
| Download.IntendedPdfNameIsEntry | main.go:194-195 | the same holds under the corrected naming |
| Scraper.Process | main.go:34-44 | the loop as `main` runs it, naming each file with `TargetName`; Scraper.MainSavesPdfNames and the loop lemmas state its properties |
| Scraper.Loop | main.go:34-44 | the download loop, threading the directory from one URL to the next; the Scraper lemmas below state its properties for any naming |
| Scraper.ScrapeAndDownload | main.go:28-44 | `main` after the page is rendered; Scraper.MainAttemptsEachUrlOnce, Scraper.MainSavesPdfNames and Scraper.SecondRunSkipsDownloaded state what it does |
| Scraper.PdfUrls | main.go:30-32 | the extracted URLs without duplicates; Scraper.MainAttemptsEachUrlOnce states what `main` does with them |
| Scraper.EligibleUrls | main.go:34-42 | the URLs that pass both checks; Scraper.EligibleUrlsSpec states which they are |
| Scraper.ProcessAttemptsEligible | main.go:34-44 | the loop calls `downloadPDF` for exactly the URLs that pass both checks, in list order |
| Scraper.EligibleUrlsSpec | main.go:34-42 | a URL survives the checks exactly when it is in the list and passes both; filtering never creates a duplicate |
| Scraper.MainAttemptsEachUrlOnce | main.go:28-44 | `main` downloads each distinct, eligible extracted URL exactly once and no other URL |
| Scraper.ProcessKeepsUntargeted | main.go:34-44 | an entry that no attempt targets ends the run as it began |
| Scraper.ProcessKeepsFiles | main.go:34-44 | a file that exists before the run is never changed by it |
| Scraper.ProcessSkipsExisting | main.go:34-44 | every attempt whose target file existed before the run is skipped |
| Scraper.ProcessKeepsDownloads | main.go:34-44 | each successful download's file is still there at the end with its body |
| Scraper.LaterSameNameSkipped | main.go:34-44 | a later attempt with the same name as a successful download is skipped rather than overwriting it |
| Scraper.MainSavesPdfNames | main.go:30-44 | each file `main` tries to save has the name given by `urlToFilename`, ends in ".pdf", has no '/' and is not the output directory |
| Scraper.IntendedMainSavesPdfNames | main.go:30-44 | the same holds when `main` uses the corrected naming |
| Scraper.SecondRunSkipsDownloaded | main.go:20-44 | a second run on the same page tries the same URLs, and it skips every URL that the first run downloaded, whatever the network does |

Three behaviours of `urlToFilename` are easy to misread, and the model follows
the code in each:

- The deletion string is `"_" + ext` with the dot included (main.go:175). The
  sanitized stem never holds a '.', so the step never fires when there is an
  extension (see Findings).
- The deletion removes every occurrence (`strings.ReplaceAll`, main.go:161),
  not just the first.
- A last element without an extension loses all its underscores, because the
  deletion string is then "_". It does not come through sanitized and
  otherwise unchanged.

One note on the regular expression of `extractPDFUrls`:

- For this expression, Go's leftmost-first matching coincides with
  leftmost-longest matching. Only the trailing run of URL characters can vary
  in length, and the greedy `+` tries the longest run first. `https?` cannot
  choose between two lengths either, because "http" must be followed by "s"
  or ":". The description proved about the scanner is therefore stated as
  leftmost-longest.

## Left out

- `scrapePageHTMLWithChrome` (main.go:48-85): the browser, its options and its timeouts are not modelled. The rendered page is an input of `ScrapeAndDownload`, and a failed render is the empty page. `Extractor.ExtractFromShort` shows that the empty page yields no URLs.
- `isUrlValid` and `hasDomain` (main.go:125-152) wrap Go's `net/url` parser. They are modelled as arbitrary predicates (`Scraper.Checks`), and every property holds for any choice of them.
- `directoryExists` and `createDirectory` (main.go:108-122): the output directory is taken to exist. A missing directory shows up only as a failed create, through `Env.createOk`.
- The HTTP client, its 15-minute timeout, the User-Agent header and the byte-level mechanics of `io.Copy`, `os.Create` and `WriteTo` are not modelled. Only their outcomes are kept, as the fields of `Download.Env`. The network a run meets is a function from URL to `Env`; each URL is requested at most once per run (`Scraper.MainAttemptsEachUrlOnce`).
- `os.Stat` errors other than absence are treated as absence, as `fileExists` does.
- Text.ToLowerAscii: lower-cases ASCII letters only. Go's `strings.ToLower` also maps non-ASCII letters. That matters only for the few whose lower case is an ASCII letter, such as the Kelvin sign, and for non-ASCII letters in the extension. Every other non-ASCII character becomes '_' when sanitized, either way.
- Invalid UTF-8 is not modelled: strings are sequences of characters.
- Download.Lookup: `filepath.Join` (main.go:195) and its `filepath.Clean` are not modelled beyond what the model needs. The names are "" and ".", which join to the output directory itself, "..", which joins to its parent, and every other name without '/', which joins to an entry of it. The `Scraper` loop lemmas hold for any naming, but `TargetName` never yields ".." (Download.TargetNameNotParent).
- Logging and the boolean returned by `downloadPDF` are left out; the outcome `Done` stands for `true`.
- The constant page URL and directory name in `main` (main.go:21-26) are not modelled. The model takes the rendered page and the directory's contents as inputs instead.
- main.py, a separate script, is not part of this model.

## Findings

| source | as written | input that shows it | evidently intended | confidence | as-written member | corrected member |
|---|---|---|---|---|---|---|
| main.go:175 | the deletion string is `"_" + extension`, and the extension includes its dot ("_.pdf"); the sanitized stem never contains a '.', so nothing is deleted and the sanitized extension stays in the name | `https://Example.com/Docs/Manual_V2.PDF` is saved as "manual_v2_pdf.pdf" | delete the underscore-prefixed extension without its dot ("_pdf"), so the name is "manual_v2.pdf" | high; not executed | Filename.AsWrittenRenamesSafeName | Filename.IntendedKeepsSafeName |

`Filename.ManualExample` computes the concrete case as written. The
corrected naming is `Filename.UrlToFilenameIntended`, and
`Download.TargetNameIntended` builds on it. `Scraper.ScrapeAndDownloadIntended`
models `main` with that naming, and every loop property in `Scraper` is proved
for any naming function, so each holds under both. `Scraper.ScrapeAndDownload`
keeps the as-written naming, because that is what decides the names on disk.
