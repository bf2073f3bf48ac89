# Page-weight survey: a Dafny model

`sayfalari_getir.py` reads a list of URLs and opens each one in a headless
browser on a thread pool. For each page it scrolls until the height stops
changing. It then counts the HTTP responses the page triggered and adds up
their byte lengths. Every completed job prints a progress line, and the rows
end up in one CSV file (domain, request count, size).

This project models the sequential logic around that plumbing:

- `wrappers.dfy` (`Wrappers`) defines `Option`.
- `text.dfy` (`Text`) models trimming blanks from both ends of a string,
  over two blank sets. One is `str.isspace`, which `str.strip()` uses. The
  other is the narrower set `int()` skips around a number. It also models a
  search for the first character out of a set.
- `urls.dfy` (`Urls`) covers:
  - the input-line filter of `main`;
  - `normalize_url`;
  - the netloc that `urllib.parse.urlparse` extracts;
  - `get_domain`.

  The netloc follows the `urlsplit` of Python 3.12. It strips leading C0
  controls and spaces, removes tab, CR and LF, and recognises a scheme.
  After `//` it takes the text up to the first `/`, `?` or `#`. A netloc with only one of
  `[` and `]` is rejected, which Python reports as a `ValueError`.
- `decimal.dfy` (`Decimal`) models Python 3.12's `int()` applied to a header
  string, and `str()` as its inverse. `int()` skips ASCII space, tab, LF,
  VT, FF, CR and non-ASCII whitespace around the number. Unlike
  `str.strip()`, it does not skip the separators U+001C..U+001F.
- `tally.dfy` (`Tally`) models the loop over the recorded requests in
  `measure_url`. It counts the answered requests and adds up the length
  chosen for each: the `Content-Length` header, or else the body.
- `scroll.dfy` (`Scroll`) models `scroll_to_bottom`. A height oracle stands
  in for the browser.
- `report.dfy` (`Report`) covers:
  - what `measure_url` returns for a URL;
  - the submission of one job per URL;
  - the loop over completed futures in `main`.

  The completion order of the pool is a parameter, and can be any
  permutation of the submitted jobs.

A URL whose netloc makes `urlparse` raise is a job that *raises*. The row
sentinel `(domain, 0, 0.0)` never covers it, because `get_domain` runs
before the `try` of `measure_url`. The exception then resurfaces at
`future.result()`, and the run ends before the CSV is written. The model
follows the code here: a job's outcome is `Finished(row)` or `Raised`, and a
run is `NoUrls`, `Aborted` or `Written`. This differs from the idea that
every job yields exactly one row.

## Model

| member | source | states |
|---|---|---|
| Text.Trim | sayfalari_getir.py:36 | for either blank set, the result neither starts nor ends with a blank, is no longer than the input, and is empty exactly when the input is all blanks |
| Text.TrimSurrounded | sayfalari_getir.py:36 | trimming blanks + trimmed text + blanks gives back that text |
| Text.TrimSplits | sayfalari_getir.py:36 | every string is its trim with blanks on both sides |
| Text.TrimIgnoresSurroundingBlanks | sayfalari_getir.py:36 | adding blanks around a string does not change its trim |
| Text.TrimIdempotent | sayfalari_getir.py:36 | trimming twice equals trimming once |
| Text.FirstOf | sayfalari_getir.py:46-47 | the index of the first character from the set, or the length when there is none |
| Urls.KeepLines | sayfalari_getir.py:151 | never more entries than input lines; every entry is non-empty and stripped |
| Urls.KeepLinesSelects | sayfalari_getir.py:151 | the kept entries are the stripped lines at strictly increasing positions, and a position is kept exactly when its line is not all whitespace |
| Urls.NormalizeUrl | sayfalari_getir.py:35-41 | empty exactly for blank input; otherwise stripped and starting with "http://" or "https://"; the result is the stripped input exactly when that input already has one of the two prefixes (case-sensitive), and "https://" + stripped input otherwise |
| Urls.NormalizeIdempotent | sayfalari_getir.py:35-41 | normalising a normalised URL changes nothing |
| Urls.PrepareUrls | sayfalari_getir.py:151-156 | one URL per kept line, in order; each has an http(s) prefix and is stripped; it is the kept line itself exactly when that line already starts with "http://" or "https://", and "https://" + the line otherwise |
| Urls.LStripC0 | sayfalari_getir.py:44 | what is left does not start with a C0 control character (U+0000..U+001F) or a space |
| Urls.LStripC0Drops | sayfalari_getir.py:44 | what is left is a suffix of the input, and every dropped character is at most U+0020 |
| Urls.RemoveUnsafe | sayfalari_getir.py:44 | no tab, CR or LF remains, and the result is no longer than the input |
| Urls.RemoveUnsafeOfOne | sayfalari_getir.py:44 | a single character is removed exactly when it is a tab, CR or LF, and kept otherwise |
| Urls.RemoveUnsafeKeepsClean | sayfalari_getir.py:44 | text without tab, CR or LF is left unchanged |
| Urls.RemoveUnsafeConcat | sayfalari_getir.py:44 | removing them from a concatenation removes them from each part |
| Urls.SchemeEnd | sayfalari_getir.py:44 | urlsplit's scan for a scheme: a found scheme ends at a ':' strictly inside the URL; SchemeEndIsFirstColon states exactly when one is found |
| Urls.SchemeRunAt | sayfalari_getir.py:44 | the run of scheme characters ends at a given non-scheme character exactly when everything before it is a scheme character |
| Urls.SchemeEndIsFirstColon | sayfalari_getir.py:44 | a scheme is found at the first ':' exactly when the text before it is non-empty, starts with an ASCII letter and holds only scheme characters |
| Urls.AfterSchemeIsSuffix | sayfalari_getir.py:44 | what follows the scheme is a suffix of the URL |
| Urls.SplitNetloc | sayfalari_getir.py:44-45 | `_splitnetloc` and the "Invalid IPv6 URL" ValueError: a netloc found is no longer than its input; SplitNetlocShape states its shape |
| Urls.Netloc | sayfalari_getir.py:44-45 | `urlparse(url).netloc`, or None for the ValueError; no ensures of its own: NetlocShape and NetlocOfAuthority state its properties |
| Urls.SplitNetlocShape | sayfalari_getir.py:44-45 | a netloc is empty, or the text right after "//"; it holds no '/', '?' or '#', and it holds both brackets or neither |
| Urls.NetlocShape | sayfalari_getir.py:44-45 | a netloc holds no delimiter, tab or newline, and it holds both brackets or neither |
| Urls.NetlocOfAuthority | sayfalari_getir.py:44-45 | for scheme "://" authority followed by a path, query or fragment, the netloc is the authority |
| Urls.DropPort | sayfalari_getir.py:46-47 | the result is a prefix of the netloc without ':', followed in the netloc by ':' whenever it is shorter |
| Urls.DropWww | sayfalari_getir.py:48-49 | removes exactly one leading "www." when present, and otherwise changes nothing |
| Urls.GetDomain | sayfalari_getir.py:43-50 | a domain exists exactly when the modelled netloc does, that is, when the netloc holds both brackets or neither |
| Urls.DomainInNetloc | sayfalari_getir.py:43-50 | the domain holds no ':' and occurs inside the netloc |
| Urls.DomainOfNetloc | sayfalari_getir.py:46-50 | the same for any netloc, with the offset where the domain occurs |
| Urls.DomainOfAuthority | sayfalari_getir.py:43-50 | for scheme "://" authority…, the domain is the authority cut at its first ':' with one leading "www." removed |
| Urls.DomainDropsOneWww | sayfalari_getir.py:48-49 | "www.www.x" becomes "www.x" |
| Urls.DomainKeepsUserinfo | sayfalari_getir.py:46-49 | for "user:password@host" the domain is the user name |
| Decimal.ParseInt | sayfalari_getir.py:117 | text made only of `int()` blanks does not parse; a negative value comes from text whose trim starts with '-' |
| Decimal.ParseSignedRun | sayfalari_getir.py:117 | an optional '+' or '-' followed by digits, with single underscores between digits and at most 4300 digits, parses to its signed value |
| Decimal.ParseIntShape | sayfalari_getir.py:117 | conversely, whatever parses is such a sign and digit run once its `int()` blanks are trimmed, and its value is the signed value of that run |
| Decimal.ParseIgnoresSurroundingSpace | sayfalari_getir.py:117 | `int()` blanks around the header value do not change the parse |
| Decimal.ParseRejectsSeparator | sayfalari_getir.py:117 | a character from U+001C..U+001F is whitespace to `str.isspace`, yet one in front of any text makes `int()` fail |
| Decimal.DigitsValueOfDigits | sayfalari_getir.py:117 | the digits of m denote m |
| Decimal.ParseFormat | sayfalari_getir.py:117 | `int(str(n)) == n` within the 4300-digit limit |
| Tally.ContentLength | sayfalari_getir.py:115 | a non-empty "Content-Length" value wins; otherwise the result is the "content-length" value if that key is present, and nothing if it is absent; the value always comes from the headers |
| Tally.ChosenLength | sayfalari_getir.py:113-127 | a declared length is the parse of the header, whatever the body is; otherwise the length is the body's length for a non-empty readable body, and there is none otherwise |
| Tally.Contribution | sayfalari_getir.py:107-129 | what one request adds to `total_bytes`; no ensures of its own: UnansweredAddsNothing, HeaderIgnoresBody, UnparsableHeaderContributesNothing and DeclaredLengthCounted state its cases |
| Tally.TotalBytes | sayfalari_getir.py:104-129 | `total_bytes` after the loop; no ensures of its own: TallyResponses, TotalBytesConcat and UnansweredAddsNothing state its properties |
| Tally.ResponseCount | sayfalari_getir.py:105-111 | never more than the number of requests |
| Tally.TallyResponses | sayfalari_getir.py:104-129 | the loop ends with the response count and the byte total of the whole request list |
| Tally.ResponseCountIsAnswered | sayfalari_getir.py:107-111 | the response count is the number of positions whose request got a response |
| Tally.TotalBytesConcat | sayfalari_getir.py:104-129 | the byte total over consecutive batches of requests adds up |
| Tally.ResponseCountConcat | sayfalari_getir.py:104-111 | the response count over consecutive batches of requests adds up |
| Tally.UnansweredAddsNothing | sayfalari_getir.py:108-110 | a request without a response changes neither total, wherever it stands |
| Tally.HeaderIgnoresBody | sayfalari_getir.py:115-117 | with a declared length the body does not matter |
| Tally.UnparsableHeaderContributesNothing | sayfalari_getir.py:114-126 | a declared length that does not parse adds 0, even when a body is there |
| Tally.DeclaredLengthCounted | sayfalari_getir.py:115-117 | a header "Content-Length: n" written as `str(n)` adds n |
| Scroll.ScrollToBottom | sayfalari_getir.py:64-74 | between 1 and MAX_SCROLLS scroll commands; every height before the stop differs from the one before it; and when fewer than MAX_SCROLLS were issued, the last height equals the one before |
| Scroll.StopIsUnique | sayfalari_getir.py:64-74 | the heights alone determine how many commands are issued |
| Report.Sentinel | sayfalari_getir.py:134-135 | the `(domain, 0, 0.0)` row of the `except` branch; JobResultRow and SentinelIsAmbiguous say when it is returned |
| Report.MegabytesOverflow | sayfalari_getir.py:131 | `total_bytes / (1024 * 1024)` raises OverflowError exactly when the absolute byte total reaches OverflowBytes = 2^1044 - 2^990, where the correctly rounded quotient reaches 2^1024; JobResultRow states the sentinel it leads to |
| Report.JobResult | sayfalari_getir.py:79-135 | a job raises exactly when get_domain does |
| Report.JobResultRow | sayfalari_getir.py:83-135 | a job that does not raise returns its domain (without ':'). If the session failed, or the byte total is too large for the MB conversion to give a double, it returns the sentinel `(domain, 0, 0)`. Otherwise it returns the number of answered requests (at most the number recorded) and their byte total |
| Report.MeasureUrl | sayfalari_getir.py:79-135 | scrolling, then tallying, gives the job's outcome |
| Report.SentinelIsAmbiguous | sayfalari_getir.py:132-135 | a failed session and a page with no recorded requests give the same row |
| Report.CompletionPosition | sayfalari_getir.py:167 | every submitted job occurs in the completion order |
| Report.PickPermutes | sayfalari_getir.py:167-171 | reading a sequence at the same positions in another order gives the same multiset |
| Report.ReorderPermutes | sayfalari_getir.py:167-171 | reading the outcomes in completion order is a permutation of them |
| Report.SubmitAll | sayfalari_getir.py:166 | the futures hold each URL's outcome, in submission order |
| Report.CollectRows | sayfalari_getir.py:165-171 | the loop's outcome meets CompletesAs |
| Report.AllCompleted | sayfalari_getir.py:167-171 | once every position has given a row, no job raised; the rows are the outcomes in completion order and a permutation of them |
| Report.AbortedCompletes | sayfalari_getir.py:168-169 | stopping at a job that raised, after the progress lines of the earlier completions, meets CompletesAs |
| Report.WrittenCompletes | sayfalari_getir.py:168-171 | collecting every row with counters 1..N meets CompletesAs |
| Report.RunReport | sayfalari_getir.py:151-171 | no URLs (so no pool and no CSV) exactly when no line is kept. Otherwise: the CSV is written exactly when no job raised, with one row per job in completion order, a permutation of the per-job rows, and counters 1..N; or the run stops at the first raising job, after one progress line for each job completed before it |
| Report.CountersIncrease | sayfalari_getir.py:168-170 | the printed counters strictly increase |

## Left out

- Browser work is not modelled: creating the Chrome driver, navigation, the
  video-play script, the sleeps and `driver.quit()` (lines 52-62, 86-102,
  136-141). A job's session is a `Probe` instead: it failed, or it loaded
  with a height oracle and a list of recorded requests. Every failure inside
  the `try` leads to the same sentinel, so the kind of failure is not kept.
- The heights of `scroll_to_bottom` come from the oracle `height`. The
  scroll itself and the waits do not affect the page here, and
  `MeasureUrl` does not use the number of commands, just as the source does
  not.
- The thread pool (`MAX_WORKERS`) and its concurrency are not modelled. The
  completion order is a parameter that can be any permutation. Jobs run one
  after another in `SubmitAll`, and each job's outcome depends only on its
  own probe.
- When a job raises, the pool still finishes the other jobs before the
  exception leaves `main`. The model records the abort and the progress
  lines printed before it, and nothing after.
- Floating point is not modelled: the value of the MB conversion,
  `round(…, 3)` and the `:.3f` formatting (lines 131, 170, 178).
  `Row.totalBytes` is the integer byte total. The one way the conversion can
  fail is modelled. From 2^1044 - 2^990 bytes on (in absolute value), the
  quotient rounds to infinity, Python raises OverflowError, and the job
  returns the sentinel.
- The wall-clock timing and its `divmod` (lines 147, 180-185) are not
  modelled.
- Reading `urls.txt` is not modelled. This covers splitting it into lines
  and its "not found" exit (lines 149-154). The model's input is the
  sequence of lines.
- Writing the CSV and its quoting are not modelled (lines 174-178). The
  written rows are `Report.Written.rows`.
- Urls.Netloc: urlparse is modelled only as far as the netloc, as Python
  3.12 computes it. Its validation of bracketed IPv6 hosts and its NFKC
  check of non-ASCII netlocs are not modelled.
- Tally.ContentLength: headers are a map looked up by exact key, as the
  two `get` calls are written. The case-insensitive lookup of the real
  header object is not modelled.
- Decimal.ParseInt: non-ASCII Unicode digits are not accepted, though
  Python's `int()` accepts them.
- Decimal.ParseFormat: stated only for numbers of at most 4300 digits.
  Beyond that `int()` raises.
