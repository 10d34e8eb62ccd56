# tinyback, modelled in Dafny

tinyback harvests URL shorteners. It walks a range of short codes and asks the
shortener for the long URL behind each one. It writes `code|url` lines and then
checks, sorts and cleans those files with small tools. This project models the
logic of that pipeline and proves its properties. The I/O around the logic
(sockets, threads, files, DNS, clocks) is left out.

The model covers these parts, one Dafny module per source file:

- **Code space.**
  - `Services` models `Base.advance`, the mixed-radix successor every service uses, and the Ruby error classes.
  - `Generators` models `factory`, `sequence_generator` and `chain_generator` from the Python side. MD5 is an abstract hash function.
  - `ShortUrl` models the C ordering `compare_codes` and `compare_shorturls`, plus the seven-byte code buffers of the C tools.
- **Services.** `TinyUrl`, `Bitly`, `Isgd` and `Trim` model each shortener's `charset`, `canonicalize` and `url`. They also model how `fetch` classifies an answer from a status line and header lines given as inputs. The bit.ly and is.gd adapters keep a socket across calls, so they are classes.
- **Harvesters.**
  - `Reaper` (Ruby) models `Stats`, the monitor threshold, the code cursor, the per-code retry loop and the writer thread's stop counting. It runs one code at a time.
  - `PyReaper` (Python) models the retry loop of `Reaper.run`, the token bucket `_rate_limit` (with time as a parameter) and the fixture lines of `ServiceTester`.
  - `IpManager` models the time-to-live refresh and the round-robin rotation of `get_ip`.
- **Output-file tools.**
  - `VerifyTool` models `verify.c`.
  - `SortTool` models `sort.c`, the windowed sort.
  - `RemoveDuplicates`, `RepairChronomex` and `ToCsv` model the Ruby line filters.
  - `RubyText` holds the Ruby string operations these filters share: `chomp!("\n")`, `split("|", 2)`, `each_line`, header splitting and `strip`.

Ruby's `^` and `$` match at line boundaries. Wherever a regular expression is
applied to a code, the model says which line matched. Lemmas about the usual
one-line case take a newline-free code as a hypothesis.

Integers are unbounded throughout. C's `gchar` is modelled as a signed byte,
because the byte differences in `compare_codes` are signed. C strings are cut
at their first NUL byte.

## Model

| member | source | states |
|---|---|---|
| Services.FetchErrorKinds | lib/tinyback/services.rb:22-38 | A class is a FetchError exactly when it is FetchError or ServiceBlockedError. Every class is a ServiceError. |
| Services.IndexOf | lib/tinyback/services.rb:50 | `charset.index` gives the first position holding the symbol, and None exactly when the symbol is absent. |
| Services.Advance | lib/tinyback/services.rb:43-56 | The loop over a copy of the code returns the successor `Next(charset, code)`. The result is None where `charset.index` finds nothing and `nil + 1` raises. |
| Services.NextCarries | lib/tinyback/services.rb:45-54 | A trailing run of last symbols all become `charset[0]`, and the carry moves into the prefix. |
| Services.NextBumps | lib/tinyback/services.rb:47-51 | The rightmost non-last symbol becomes its charset successor. The symbols to its left are unchanged, those to its right become `charset[0]`, and the length is kept. |
| Services.NextFails | lib/tinyback/services.rb:50 | A symbol outside the charset at the bump position makes `advance` fail. |
| Services.NextWraps | lib/tinyback/services.rb:46-55 | A code made only of last symbols, the empty code included, becomes `charset[0]` repeated length + 1 times. |
| Services.NextLastSingle | lib/tinyback/services.rb:46-55 | The last symbol alone becomes two copies of `charset[0]`. |
| Services.NextWellFormed | lib/tinyback/services.rb:43-56 | On a code over the charset, `advance` succeeds and stays inside the charset. The length grows by one exactly when every symbol is the last one. |
| Services.RankIsShortlex | lib/tinyback/services.rb:43-56 | The shortlex rank of a code of length n lies between the number of codes shorter than n and the number shorter than n + 1. |
| Services.RankInjective | lib/tinyback/services.rb:43-56 | Over a charset without repeats, two codes with the same rank are equal. |
| Services.NextIncrementsRank | lib/tinyback/services.rb:43-56 | Over a charset without repeats, the successor of a code has exactly one more shortlex rank, so `advance` is the next code in shortlex order. |
| Generators.Factory | tinyback/generators.py:27-41 | The result is None (ValueError) exactly for a type other than chain, sequence or list. "list" yields the given list in order. The other two types yield their generator's stream. |
| Generators.SequenceGenerator | tinyback/generators.py:79-106 | The for/else loop yields exactly the stream `Sequence(charset, start, stop)`. |
| Generators.SequenceShape | tinyback/generators.py:94-106 | `start` is yielded first. Each later code is the `advance` successor of the one before. No code before the last equals `stop`. A generator that returns has yielded `stop` last. |
| Generators.SequenceEnumerates | tinyback/generators.py:94-106 | When `stop` is k successor steps from `start`, exactly k + 1 codes are yielded, and the i-th has rank rank(start) + i. |
| Generators.SequenceIncreasing | tinyback/generators.py:94-106 | The codes yielded are pairwise distinct, strictly increasing in shortlex rank and never shorter than an earlier one. |
| Generators.SequencePastStop | tinyback/generators.py:96-106 | When `stop` ranks before `start`, the loop never meets `stop`, and any bound on the steps is reached. |
| Generators.Threshold | tinyback/generators.py:60 | m = 256 - 256 % n lies in 0..256 and is greater than 256 - n. |
| Generators.ThresholdDivides | tinyback/generators.py:60 | m is a multiple of n. |
| Generators.Accepted | tinyback/generators.py:70-72 | The bytes kept are the subsequence of the digest holding exactly the bytes at most m, each as often as the digest holds it. |
| Generators.Symbols | tinyback/generators.py:73 | Byte b contributes `charset[b % n]`, so every symbol lies in the charset. |
| Generators.Extract | tinyback/generators.py:69-77 | A digest yields a code exactly when it has at least `length` kept bytes. The code has `length` symbols of the charset. |
| Generators.ExtractCode | tinyback/generators.py:69-77 | The inner loop over one digest computes `Extract`. |
| Generators.Digests | tinyback/generators.py:61-67 | The first digest is the hash of the seed, and each later one is the hash of the one before. |
| Generators.Candidates | tinyback/generators.py:64-77 | Every candidate code has exactly `length` symbols from the charset. There are no more candidates than digests. |
| Generators.Chain | tinyback/generators.py:43-77 | A length over the 16-byte digest size raises ValueError before anything is yielded. An empty charset raises ZeroDivisionError. |
| Generators.ChainTakesCandidates | tinyback/generators.py:64-77 | The chain yields the first `count` candidate codes. It returns exactly when enough candidates exist within the bound. |
| Generators.ChainCodes | tinyback/generators.py:64-77 | Every code yielded has `length` symbols from the charset. At most `count` codes are yielded, and exactly `count` when the generator returns. |
| Generators.ChainExtends | tinyback/generators.py:64-77 | Raising the bound on hash rounds only extends what is yielded. A generator that has returned is unchanged. |
| Generators.CandidatesExtend | tinyback/generators.py:64-77 | More hash rounds only append candidates, so the output is a deterministic function of the options. |
| Generators.BoundaryByteKept | tinyback/generators.py:71-73 | When n does not divide 256, the byte equal to m passes `byte > m` and contributes `charset[0]`. |
| Generators.AcceptedRange | tinyback/generators.py:71-73 | Over the byte values below a limit, the skip test `byte > m` keeps exactly those up to m, in order. |
| Generators.KeptIntended | tinyback/generators.py:71-73 | The corrected skip test `byte >= m` keeps exactly the bytes below m, in order and with their multiplicities. |
| Generators.KeptAsWritten | tinyback/generators.py:71 | Over all 256 byte values, the test `byte > m` as written keeps the values 0..m, which is m + 1 of them when m < 256. The corrected test keeps the m values below m. |
| Generators.SymbolCountRange | tinyback/generators.py:73 | Counting the symbols `byte % n` over the byte values below a limit gives their preimage counts. |
| Generators.PreimagesBlocks | tinyback/generators.py:73 | Below n·q + r every symbol has q preimages, and those before symbol r one more. |
| Generators.KeptBytesBiased | tinyback/generators.py:71-73 | Among the byte values the filter as written keeps, when n does not divide 256, `charset[0]` is the symbol of m / n + 1 of them and every other symbol of m / n. |
| Generators.IntendedUniform | tinyback/generators.py:71-73 | Among the byte values the corrected filter keeps, every symbol is the symbol of exactly m / n of them. |
| Generators.ChainGenerator | tinyback/generators.py:43-77 | The while loop yields exactly the stream `Chain(...)`. |
| TinyUrl.NormalizeClean | lib/tinyback/services/tinyurl.rb:45-47 | After the cut at "/", the deletion of dashes and downcasing, no "/", "-" or capital letter is left. |
| TinyUrl.Canonicalize | lib/tinyback/services/tinyurl.rb:44-50 | A result is the rewritten code. It is accepted exactly when some line of it matches `[a-z0-9]{1,49}` in full. |
| TinyUrl.Url | lib/tinyback/services/tinyurl.rb:31-33 | The result is "http://tinyurl.com/" followed by the canonical code, and it fails exactly when `canonicalize` raises. |
| TinyUrl.CanonicalizeSingleLine | lib/tinyback/services/tinyurl.rb:44-50 | On a newline-free code, acceptance means the rewritten code is 1 to 49 symbols of the charset. |
| TinyUrl.CanonicalizeIdempotent | lib/tinyback/services/tinyurl.rb:44-50 | Canonicalizing a canonical code changes nothing. |
| TinyUrl.UrlOfCanonical | lib/tinyback/services/tinyurl.rb:31-50 | A code and its canonical form have the same URL. |
| TinyUrl.CanonicalizeTo | lib/tinyback/services/tinyurl.rb:44-50 | A newline-free code whose rewriting is valid is accepted as that rewriting. |
| TinyUrl.RejectedBy | lib/tinyback/services/tinyurl.rb:48 | A newline-free code whose rewriting is invalid raises InvalidCodeError. |
| TinyUrl.NormalizeKeepsLength | lib/tinyback/services/tinyurl.rb:45-47 | A code without "/" or "-" keeps its length. |
| TinyUrl.CanonicalizeExamples | tests/tc_tinyurl.rb:63-79 | "TEsT", "--te---st--" and "test/another-test" give "test". "test&", "" and a 50-symbol code are invalid. |
| TinyUrl.AdvanceDigit | tests/tc_tinyurl.rb:82 | "0" advances to "1". |
| TinyUrl.AdvanceToLetter | tests/tc_tinyurl.rb:83 | "9" advances to "a". |
| TinyUrl.AdvanceWraps | tests/tc_tinyurl.rb:84 | "z" advances to "00". |
| TinyUrl.AdvanceCarries | tests/tc_tinyurl.rb:85 | "0z" advances to "10". |
| TinyUrl.Request | lib/tinyback/services/tinyurl.rb:61-66 | The request starts with "GET /" or "HEAD /", as `get` says. |
| TinyUrl.MovedLocation | lib/tinyback/services/tinyurl.rb:71 | The capture is that of the first segment, followed by a newline, that starts with "Location: " and ends in CR, without the prefix and the CR. It is None exactly when no such segment exists. |
| TinyUrl.CrLocation | lib/tinyback/services/tinyurl.rb:71 | Over a sequence of segments: the first matching one is captured, and there is no capture exactly when none matches. |
| TinyUrl.LocationLineCaptured | lib/tinyback/services/tinyurl.rb:69-72 | A line `Location: X` ended by CRLF is captured as X, and a 301 reply with that line answers X. |
| TinyUrl.StopIndex | lib/tinyback/services/tinyurl.rb:69-78 | The 301 scan stops at the first line that is not skipped, or at the end. |
| TinyUrl.MovedOutcome | lib/tinyback/services/tinyurl.rb:67-79 | The first Location line wins. A bare CRLF reached first raises the undefined `BlockedError` (a NameError). Running out of lines is a FetchError, and only these three outcomes occur. |
| TinyUrl.ScanMoved | lib/tinyback/services/tinyurl.rb:69-79 | The while loop stops where `StopIndex` says and answers `MovedOutcome`. |
| TinyUrl.StopIsFirst | lib/tinyback/services/tinyurl.rb:69-78 | Any index before which every line is skipped, and at which a line is not, is the stop. |
| TinyUrl.Answer | lib/tinyback/services/tinyurl.rb:67-111 | 301 gives the scan outcome, 404 NoRedirectError and 302 a NameError. 200 gives the scraped body for GET and a re-request for HEAD. Any other status gives FetchError. |
| TinyUrl.Fetch | lib/tinyback/services/tinyurl.rb:58-115 | An invalid code raises before anything is sent. Otherwise one request is sent, plus exactly one GET when a HEAD is answered 200. The answer is `Answer` of the last reply. |
| Bitly.Canonicalize | lib/tinyback/services/bitly.rb:55-59 | The code is returned unchanged exactly when some line of it is over `[A-Za-z0-9-_]` and the code is not "api" or "pro". |
| Bitly.Url | lib/tinyback/services/bitly.rb:43-45 | The result is "http://bit.ly/" followed by the code, and it fails exactly when `canonicalize` raises. |
| Bitly.CanonicalizeSingleLine | lib/tinyback/services/bitly.rb:55-59 | On a newline-free code: accepted exactly when it is a non-empty string over the charset other than the two keywords, and then it lies in the charset. |
| Bitly.CanonicalizeIdempotent | lib/tinyback/services/bitly.rb:55-59 | Canonicalizing a canonical code changes nothing. |
| Bitly.CanonicalizeExamples | tests/tc_bitly.rb:43-56 | "test&", "", "api" and "pro" are invalid. |
| Bitly.AdvanceExamples | tests/tc_bitly.rb:58-66 | "0"→"1", "9"→"a", "z"→"A", "Z"→"-", "-"→"_", "_"→"00", "0_"→"10". |
| Bitly.Request | lib/tinyback/services/bitly.rb:71 | The request is a HEAD for the code as given. |
| Bitly.Located | lib/tinyback/services/bitly.rb:85-87 | The Location value of the third header from the end. FetchError when that header is no Location. NoMethodError when there are fewer than three headers. |
| Bitly.Warning | lib/tinyback/services/bitly.rb:91-96 | A 302 target is accepted exactly when it is http://bit.ly/a/warning with `hash` equal to the code and a `url` parameter. The result is that URL stripped. |
| Bitly.Classify | lib/tinyback/services/bitly.rb:78-105 | No header block gives FetchError, 301 the Location and 302 the warning-page URL. ServiceBlockedError comes exactly from 403, NoRedirectError exactly from 404, and any other status gives FetchError. |
| Bitly.Client.constructor | lib/tinyback/services/bitly.rb:28-30 | A new adapter has no open socket. |
| Bitly.Client.Fetch | lib/tinyback/services/bitly.rb:66-112 | The answer is `Classify` of the header block. A socket is opened when none is open and again after a broken pipe. The socket is left open exactly when the headers do not say "Connection: close". |
| Isgd.LeadingRun | lib/tinyback/services/isgd.rb:49 | The longest prefix made of charset symbols. |
| Isgd.Canonicalize | lib/tinyback/services/isgd.rb:48-52 | The leading run of the first line that has a non-empty one. InvalidCodeError exactly when no line has one. |
| Isgd.Url | lib/tinyback/services/isgd.rb:36-38 | The result is "http://is.gd/" followed by the canonical code, and it fails exactly when `canonicalize` raises. |
| Isgd.CanonicalizeSingleLine | lib/tinyback/services/isgd.rb:48-52 | On a newline-free code the result is its leading run, and it is invalid exactly when that run is empty. |
| Isgd.CanonicalizeIdempotent | lib/tinyback/services/isgd.rb:48-52 | Canonicalizing a canonical code changes nothing. |
| Isgd.CanonicalizeExamples | tests/tc_isgd.rb:26-37 | "TEsT" is kept, "test-suite" gives "test" and "" is invalid. "01234567" is accepted (see Left out). |
| Isgd.AdvanceExamples | lib/tinyback/services/isgd.rb:29-31 | Under the charset as written: "a"→"b", "z"→"A", "Z"→"_", "9"→"a". |
| Isgd.HeadRequest | lib/tinyback/services/isgd.rb:64 | The first request is a HEAD for the code. |
| Isgd.GetRequest | lib/tinyback/services/isgd.rb:88 | The second request is a GET for the code. |
| Isgd.CutTrailer | lib/tinyback/services/isgd.rb:99 | The last seven characters are cut off. A shorter string is left alone. |
| Isgd.LastLocation | lib/tinyback/services/isgd.rb:77-80 | The Location value of the last header line. FetchError when it is no Location. NoMethodError when there is no header line. |
| Isgd.GetOutcome | lib/tinyback/services/isgd.rb:83-115 | A URL comes exactly when the GET is answered "200 OK", the chunk and the body are there, and the scraper finds a destination. Otherwise the result is FetchError, or NoMethodError when the GET header read is nil. |
| Isgd.Outcome | lib/tinyback/services/isgd.rb:71-122 | No header block gives FetchError, 301 the last Location and 200 the GET outcome. NoRedirectError comes exactly from 404, CodeBlockedError exactly from 502, and any other status gives FetchError. |
| Isgd.Client.constructor | lib/tinyback/services/isgd.rb:61-63 | A new adapter has no open socket. |
| Isgd.Client.Fetch | lib/tinyback/services/isgd.rb:59-129 | The answer is `Outcome`. A HEAD is sent, and a GET exactly when the HEAD is answered 200. Sockets are counted: one when none is open, one after a broken pipe, one for a GET after "Connection: close". The socket stays open exactly when the last header block read does not close it. |
| Trim.KeepWordOnly | lib/tinyback/services/trim.rb:35 | Only characters of `[A-Za-z0-9_]` survive, and a string of them is kept whole. |
| Trim.Canonicalize | lib/tinyback/services/trim.rb:33-39 | The text before the first ".", with other characters deleted and lowercased. InvalidCodeError exactly when that is empty. |
| Trim.Url | lib/tinyback/services/trim.rb:20-22 | The result is "http://tr.im/" followed by the canonical code, and it fails exactly when `canonicalize` raises. |
| Trim.NormalizeInCharset | lib/tinyback/services/trim.rb:33-39 | The rewritten code lies in the `[0-9a-z_]` charset and holds no ".". |
| Trim.CanonicalizeIdempotent | lib/tinyback/services/trim.rb:33-39 | Canonicalizing a canonical code changes nothing. |
| Trim.CanonicalizeExamples | tests/tc_trim.rb:22-40 | "TEsT", "te%st/", "-te-%-st-" and "test.bla" give "test". "Te-St_.B&lA" gives "test_". "", "--/" and ".test" are invalid. |
| Trim.AdvanceExamples | tests/tc_trim.rb:42-48 | "0"→"1", "9"→"a", "z"→"_", "_"→"00", "0_"→"10". |
| Trim.Request | lib/tinyback/services/trim.rb:48 | The request is a HEAD for the code as given. |
| Trim.Classify | lib/tinyback/services/trim.rb:45-68 | No response gives FetchError. The unavailable page gives ServiceBlockedError before any status is read. 301 gives the Location in `headers[4]`, NoRedirectError when that Location is "http://tr.im", and NoMethodError when there is no `headers[4]`. Every other status gives FetchError. |
| ShortUrl.StepDecides | src/shorturl.c:14-33 | At a position, digit against non-digit decides first. Otherwise the signed byte difference decides, because the lower- and upper-case tests are never reached with a difference. A position gives 0 exactly when the bytes are equal, and swapping the bytes negates the result. |
| ShortUrl.CompareFrom | src/shorturl.c:12-36 | From position i on, the result is 0 exactly when the suffixes are equal. |
| ShortUrl.CompareCodes | src/shorturl.c:5-37 | Codes of different lengths compare by length difference. Codes of equal length compare 0 exactly when they are equal. |
| ShortUrl.CompareFirstDifference | src/shorturl.c:12-34 | The first differing position decides, and a digit there orders before a non-digit. |
| ShortUrl.CompareAntisymmetric | src/shorturl.c:5-37 | Swapping the codes negates the result. |
| ShortUrl.CompareTransitive | src/shorturl.c:5-37 | The order is transitive, so together with the above it is a total order. |
| ShortUrl.EmptyFirst | src/verify.c:28-43 | The empty `last_code` never orders after a code, so the first line passes the order check. |
| ShortUrl.UrlsIgnored | src/shorturl.c:39-47 | `compare_shorturls` depends only on the codes. |
| ShortUrl.Split | src/verify.c:35-36 | `g_strsplit(line, "\|", 2)` yields two fields exactly when the C string holds a "\|". The first field has none. |
| ShortUrl.SplitJoined | src/verify.c:35-36 | Splitting `code\|rest` gives back the code and the rest. |
| ShortUrl.LineCode | src/verify.c:35-41 | A line has a code exactly when it has a separator and at most six bytes before it. |
| ShortUrl.CopyAsWritten | src/verify.c:50 | `strncpy(.., 6)` copies the code and NUL-pads it to six bytes, and leaves byte 6 as it was. |
| ShortUrl.SixByteCodeUnterminated | src/verify.c:50 | A six-byte code copied that way, with a stale non-NUL byte 6, has no terminator in the buffer. |
| ShortUrl.ShortCodeReadsBack | src/verify.c:50 | A code shorter than six bytes copied that way reads back intact. |
| ShortUrl.Copy | src/sort.c:102 | A terminated copy holds the code and a NUL in byte 6. |
| ShortUrl.CopyReadsBack | src/sort.c:102 | Every code of up to six bytes reads back intact from a terminated copy. |
| VerifyTool.Codes | src/verify.c:35-41 | The code of every line, or None where the line does not parse. |
| VerifyTool.VerifyFile | src/verify.c:18-65 | No failure exactly when every line parses and the codes never decrease under `compare_codes`. A failure names the first line that does not parse or is out of order. |
| VerifyTool.InOrderExtends | src/verify.c:43-50 | A parsed code not ordering before the previous one extends the checked prefix. |
| VerifyTool.ParseFailure | src/verify.c:36-41 | A line that does not parse is a PARSE failure, and the file is refused. |
| VerifyTool.UnsortedFailure | src/verify.c:43-48 | A code ordering before the previous one is an UNSORTED failure, and the file is refused. |
| VerifyTool.Run | src/verify.c:90-123 | Exit status 2 exactly on a wrong argument count. 0 exactly when the file exists, opens and verifies. 1 otherwise. `G_FILE_TEST_IS_REGULAR\|G_FILE_TEST_EXISTS` holds when either test does, so the test is one of existence. |
| SortTool.Strndup | src/sort.c:46 | On a non-empty rest the url is the rest without its last byte. On an empty rest `strlen - 1` wraps, `g_new` of zero bytes is NULL and the copy through it kills the program, which is the None result. |
| SortTool.LineRecord | src/sort.c:37-46 | A line gives a record exactly when it has a valid code and does not `Crash`, i.e. its rest after the first "\|" is not empty. The url is that rest without its last byte. |
| SortTool.FormatParses | src/sort.c:86 | A record written as `code\|url\n` is read back as the same record. |
| SortTool.EmptyRestCrashes | src/sort.c:46 | The line `a\|` without a newline has a valid code and an empty rest, so reading it kills the program. |
| SortTool.UnterminatedLosesByte | src/sort.c:46 | The last line `a\|xy` without a newline is read as url `x`. |
| SortTool.Unterminated | src/sort.c:46 | Only a final newline is cut from the rest; a rest without one is kept whole. |
| SortTool.IntendedRecord | src/sort.c:37-46 | The intended reading gives a record exactly when the line has a valid code, so no line kills the program. |
| SortTool.IntendedReadsBack | src/sort.c:46 | The intended reading reads a printed record back, with or without the final newline. |
| SortTool.FirstBad | src/sort.c:32-43 | The position of the first line that does not parse, or the end. |
| SortTool.Insert | src/sort.c:201 | Insertion adds exactly the one record. |
| SortTool.InsertSorted | src/sort.c:201 | Insertion keeps a sorted buffer sorted. |
| SortTool.SortRecords | src/sort.c:201 | `g_array_sort` permutes the buffer. |
| SortTool.SortRecordsSorted | src/sort.c:201 | The sorted buffer is in `compare_shorturls` order. |
| SortTool.SortedConcat | src/sort.c:201-217 | Two sorted runs joined in order are sorted. |
| SortTool.SortedSlices | src/sort.c:205 | Both parts of a sorted buffer cut anywhere are sorted. |
| SortTool.Sorter.constructor | src/sort.c:166-189 | The buffer starts empty, nothing is written and `last_code` is empty. |
| SortTool.Sorter.ReadShortUrls | src/sort.c:20-67 | Up to `count` lines are read and their records appended. Reading stops at the end, or at the first line that gives no record. That line is consumed and reported, and `crashed` is set exactly when it is a line the program dies on. |
| SortTool.Sorter.Sort | src/sort.c:201 | The buffer becomes its sorted permutation. |
| SortTool.Sorter.WriteFile | src/sort.c:69-110 | UNSORTED exactly when `last_code` orders after the first buffered record. Otherwise min(count, len) records are written and removed from the front, and `last_code` becomes the code of the last one written. |
| SortTool.AfterRead | src/sort.c:192-199 | A read keeps the progress invariant. It reads nothing exactly at the end of the input, and fails on no well-formed input that fits the window. It dies exactly when the first line without a record is a crash line inside the window. |
| SortTool.ReadCrashes | src/sort.c:166-199 | A read in main dies exactly when the first line of the in-file that gives no record is a crash line and lies within the MAX_DISTANCE lines read. |
| SortTool.AfterWrite | src/sort.c:203-217 | Writing a prefix of the sorted buffer keeps the written output sorted and `last_code` in step. |
| SortTool.ReadMore | src/sort.c:192-199 | The read step of the loop keeps the progress invariant. It dies exactly when the first line without a record is a crash line within its window. |
| SortTool.SortData | src/sort.c:201 | The sort step keeps the progress invariant and leaves the buffer sorted. |
| SortTool.Flush | src/sort.c:203-213 | The flush of all but the newest records fails exactly on an out-of-order first record. Otherwise it keeps the invariant. |
| SortTool.SortLines | src/sort.c:166-226 | A run that succeeds had its out-file open, and writes a sorted permutation of the records of the input, which was non-empty and well formed. Non-empty well-formed input that fits the window always succeeds when the out-file opens. A run dies only when the first line without a record is a crash line, and always does when that line is within the first MAX_DISTANCE lines. When the out-file cannot be opened, nothing is written and the run dies exactly when that line lies in the first read, which comes before the open. |
| SortTool.Run | src/sort.c:135-229 | Exit status 2 exactly on a wrong argument count. Success needs an existing in-file that opens, a new out-file that opens, and input without any crash line. The output is then a sorted permutation of the input records. No exit status (the program dies) only on input whose first bad line is a crash line. It always happens when that line is among the first MAX_DISTANCE, whether or not the out-file could be opened, since the out-file is opened only after the first read. When the out-file cannot be opened, the program dies only on such an early line. |
| SortTool.ParsedNoCrash | src/sort.c:37-46 | When every line gives a record, no line is one the program dies on. |
| Reaper.Successful | lib/tinyback/reaper.rb:58-60 | The successful requests and the three failure counters add up to `fetched`. |
| Reaper.Minus | lib/tinyback/reaper.rb:107-109 | `-` subtracts field by field. |
| Reaper.MinusSuccessful | lib/tinyback/reaper.rb:107-109 | The difference of two snapshots has the difference of their successful counts. A snapshot minus itself is zero. |
| Reaper.BlockThreshold | lib/tinyback/reaper.rb:182-185 | A window with no requests never aborts. Otherwise it aborts exactly when 10 · blocked ≥ fetched. |
| Reaper.RatesAreFractions | lib/tinyback/reaper.rb:66-87 | With counters between 0 and `fetched`, all three rates lie between 0 and 1. |
| Reaper.Monitor | lib/tinyback/reaper.rb:166-188 | The monitor aborts at the first window whose block rate reaches 10%, and not before. |
| Reaper.Classify | lib/tinyback/reaper.rb:223-258 | An attempt is a success exactly when it returns a URL, with that URL. |
| Reaper.ServiceBlockedFirst | lib/tinyback/reaper.rb:239-245 | ServiceBlockedError is counted as blocked, although it is a FetchError. InvalidCodeError and a bare ServiceError are fatal. |
| Reaper.RetryAccounting | lib/tinyback/reaper.rb:199-259 | A code takes 1 to MAX_TRIES = 3 attempts, and `fetched` grows by one per attempt after the first. Unless fatal, the successful count drops by one exactly when no URL was found. |
| Reaper.RetryStops | lib/tinyback/reaper.rb:204-259 | Retrying stops early only on success, NoRedirect, CodeBlocked or a fatal error. A URL comes from the last attempt. |
| Reaper.FormatLine | lib/tinyback/reaper.rb:283 | A record line ends in "\n" and is two characters longer than code and url together. |
| Reaper.FormatSplits | lib/tinyback/reaper.rb:283 | A written line splits back at its first "\|" into the code and the url. |
| Reaper.Drain | lib/tinyback/reaper.rb:271-284 | The writer finishes only after `num_fetch_threads` stops and starves only without them. It exits early only when some url holds "\n". |
| Reaper.DrainWritesAll | lib/tinyback/reaper.rb:271-284 | A clean queue ending in its last stop is written in full. |
| Reaper.WriteThread | lib/tinyback/reaper.rb:267-288 | The writer loop computes `Drain`. |
| Reaper.FinishedWritesAll | lib/tinyback/reaper.rb:271-284 | A writer that finishes has written every record line of the queue. |
| Reaper.Harvester.constructor | lib/tinyback/reaper.rb:118-146 | The cursor starts at `start` with zero stats and an empty queue. |
| Reaper.Harvester.TakeCode | lib/tinyback/reaper.rb:195-202 | At the stop code nothing is handed out. Otherwise the current code is handed out, the cursor advances and `fetched` grows by one. |
| Reaper.Harvester.FetchCode | lib/tinyback/reaper.rb:204-259 | The retry loop leaves the stats and the queue as `RetryFrom` says. |
| Reaper.Harvester.FetchThread | lib/tinyback/reaper.rb:190-265 | A thread that ends normally has reached the stop code and pushed its single stop. `fetched` never decreases. |
| Reaper.Harvester.FetchThreads | lib/tinyback/reaper.rb:142-144 | Unless one fails, the threads leave a queue with one stop per thread. |
| Reaper.Harvester.Run | lib/tinyback/reaper.rb:140-157 | A finished run writes every record queued, and as many lines as successful requests. Without newline urls the writer finishes, after one stop per thread. |
| Reaper.StopQueued | lib/tinyback/reaper.rb:262 | Pushing `:stop` ends a thread's part of the queue without adding a line. |
| Reaper.NextThread | lib/tinyback/reaper.rb:142-144 | One more finished thread adds one more stop. |
| Reaper.WriterOutcome | lib/tinyback/reaper.rb:271-285 | A finished writer has written as many lines as successful requests. A clean run always finishes. |
| Reaper.AfterCode | lib/tinyback/reaper.rb:196-259 | Each handled code keeps the successful count equal to the record lines queued. |
| PyReaper.InstanceOf | tinyback/exceptions.py:17-40 | An exception is an instance of its own class and of ServiceException. CodeBlockedException is also a NoRedirectException, and nothing else is. |
| PyReaper.Settings | tinyback/__init__.py:125 | No rate limit from the service means 5 requests per 5 seconds. |
| PyReaper.Tick | tinyback/__init__.py:115-127 | The call never resumes before `now`. With tokens left the deadline stays. Otherwise it waits for the deadline and sets the next one a period later. |
| PyReaper.AfterRefill | tinyback/__init__.py:116-118 | After a refill, and without a BlockedException, the next limit − 1 calls only count the tokens down and keep the refill time. |
| PyReaper.RefillsApart | tinyback/__init__.py:115-127 | Without a BlockedException, refills come exactly `limit` calls apart and resume at least one period apart. |
| PyReaper.TokenNoWait | tinyback/__init__.py:116-118 | A call with a token left does not delay its caller. |
| PyReaper.ReplayConcat | tinyback/__init__.py:91-100 | Replaying two series of calls in turn is replaying both. |
| PyReaper.BlockedWaits | tinyback/__init__.py:98-100 | A BlockedException leaves the bucket with 0 tokens, so the next call refills and waits for the refill time. |
| PyReaper.BetweenRefills | tinyback/__init__.py:115-127 | Between two refills the refill time stays one period after the earlier resumption, and the tokens fall by at least one a call, BlockedExceptions included. |
| PyReaper.RefillsPeriodApart | tinyback/__init__.py:98-127 | With BlockedExceptions too, consecutive refills let their callers go on at least one period apart, with at most `limit` calls (at least one) from the earlier one on. |
| PyReaper.CodeRequests | tinyback/__init__.py:90-100 | The calls for one code are made at successive clock readings, one per try. |
| PyReaper.RequestTimes | tinyback/__init__.py:88-100 | Call number k of a run is made at clock reading k, counted across the codes. |
| PyReaper.TryFromEnds | tinyback/__init__.py:89-111 | A code takes 1 to MAX_TRIES = 3 attempts. It retries only on a ServiceException that is not a NoRedirectException. A line `code\|url\n` is written exactly for a URL without CR or LF. |
| PyReaper.HarvestSnoc | tinyback/__init__.py:88-111 | Each code appends its line to the output, unless an earlier crash ended the run. |
| PyReaper.HarvestStops | tinyback/__init__.py:88-111 | Once a fetch crashes, nothing later is written and no later call is made. |
| PyReaper.HarvestWhole | tinyback/__init__.py:88-113 | Without crashes the output is the lines of all codes in order. |
| PyReaper.Reaper.constructor | tinyback/__init__.py:72-82 | The bucket starts empty, with the deadline at the time of construction. |
| PyReaper.Reaper.RateLimit | tinyback/__init__.py:115-127 | The bucket and the resume time follow `Tick`. |
| PyReaper.Reaper.FetchCode | tinyback/__init__.py:89-111 | The retry loop computes `TryFrom` and makes one rate-limited call per attempt. The bucket afterwards is the replay of those calls, with the reset to 0 after each BlockedException. |
| PyReaper.Reaper.Run | tinyback/__init__.py:84-113 | The output and the crash flag are those of `Harvest`. The calls made are `Requests`, and the bucket afterwards is their replay, resets included. |
| PyReaper.RStripCrlf | tinyback/__init__.py:39 | Every trailing CR and LF is stripped, and nothing else. |
| PyReaper.ParseFixture | tinyback/__init__.py:38-50 | Empty and "#" lines are skipped. A line without "\|" raises IndexError. Otherwise the line is the code, "\|" and the expected text. |
| PyReaper.Passes | tinyback/__init__.py:52-58 | A URL passes exactly when the fixture expects that same URL. An exception passes exactly when the fixture expects an exception class it is an instance of. |
| PyReaper.FixtureMatching | tinyback/__init__.py:44-58 | A CodeBlockedException passes a "notfound" fixture. A NoRedirectException does not pass "blocked". A URL never passes "notfound". |
| PyReaper.TestAll | tinyback/__init__.py:34-66 | At most one failure is reported per line. |
| PyReaper.TestAllReports | tinyback/__init__.py:34-66 | Without a malformed line, the tester reports exactly the failing fixtures. |
| IpManager.Uniq | lib/tinyback/ip_manager.rb:76 | The same addresses, and no more of them. |
| IpManager.UniqFirsts | lib/tinyback/ip_manager.rb:76 | No address appears twice, and addresses keep the order of their first occurrences. |
| IpManager.Rotate | lib/tinyback/ip_manager.rb:35-37 | The last address is handed out and moved to the front, and the others follow in their old order. An empty pool hands out nil and holds one nil afterwards. |
| IpManager.RotateKeeps | lib/tinyback/ip_manager.rb:35-37 | A rotation keeps the size and the addresses of the pool. |
| IpManager.RotateTimesShape | lib/tinyback/ip_manager.rb:35-37 | k rotations move the last k addresses to the front and hand them out from the end. |
| IpManager.RoundRobin | lib/tinyback/ip_manager.rb:35-37 | n calls on a pool of n hand out every address once, last first, and restore the pool. |
| IpManager.IPManager.constructor | lib/tinyback/ip_manager.rb:23-27 | A manager starts with its hosts and no pool. |
| IpManager.IPManager.Open | lib/tinyback/ip_manager.rb:23-27 | Construction fails (ArgumentError) exactly when no host is given. |
| IpManager.IPManager.GetIp | lib/tinyback/ip_manager.rb:29-39 | The pool is looked up again exactly when it is stale. Then the pool is rotated and the address moved to the front is returned. |
| IpManager.StaleWhen | lib/tinyback/ip_manager.rb:31 | A pool looked up at t is kept up to and including t + 300 seconds. |
| RemoveDuplicates.EntryOf | remove_duplicates.rb:12 | A line is the code, "\|" and the url. A line without "\|" is all code with a nil url. |
| RemoveDuplicates.Filter | remove_duplicates.rb:3-26 | The loop writes exactly the records the fold over the input keeps. |
| RemoveDuplicates.BlankLineSkipped | remove_duplicates.rb:8-11 | A blank line changes nothing. |
| RemoveDuplicates.StepKeeps | remove_duplicates.rb:14-24 | A line is dropped exactly when it repeats the previous code with a url already seen in that code's run. A new code restarts the seen urls and is kept. |
| RemoveDuplicates.KeptSubsequence | remove_duplicates.rb:6-26 | The output is a subsequence of the non-blank input records. |
| RemoveDuplicates.StepInv | remove_duplicates.rb:14-25 | The loop keeps `previous_code` and `previous_urls` describing the last run of the output. |
| RemoveDuplicates.OutputRunsDistinct | remove_duplicates.rb:14-24 | In any run of output lines with the same code, no url is written twice. |
| ToCsv.Escape | to_csv.rb:3-9 | A field with no ",", no quote and no CRLF is unchanged. Any other field is wrapped in quotes. |
| ToCsv.QuotedFieldRoundTrip | to_csv.rb:5 | Reading a quoted field back (outer quotes removed, doubled quotes collapsed) restores the data. |
| ToCsv.PlainFieldRoundTrip | to_csv.rb:7 | An unquoted field reads back up to the next comma or CRLF. |
| ToCsv.FieldRoundTrip | to_csv.rb:3-9 | Every escaped field followed by a comma or CRLF reads back as the data, whatever it holds. |
| ToCsv.RowRoundTrip | to_csv.rb:19 | Every row written parses back as the four fields url, code, "", "". |
| ToCsv.LoneBreaksUnquoted | to_csv.rb:4 | A lone CR or LF does not cause quoting, and a CRLF does. |
| ToCsv.ConvertLine | to_csv.rb:12-19 | A blank line writes nothing. A line without "\|" fails on nil. Otherwise the row is the url and the code of the line, url first. |
| ToCsv.ConvertWhole | to_csv.rb:11-20 | Without a line lacking "\|", the output is the rows of the lines in order. |
| RepairChronomex.StripZeros | repair_chronomex.rb:11 | The leading run of zeros is removed, and the result does not start with "0". |
| RepairChronomex.RepairLineKeeps | repair_chronomex.rb:5-17 | A line is kept exactly when it is not blank, its code is not all zeros, and its url is non-empty and not a bad url. It is then written with the zeros removed and the url unchanged. |
| RepairChronomex.KeptShape | repair_chronomex.rb:11-17 | No written code is empty or starts with "0". No written url is empty or bad. |
| RubyText.Chomp | to_csv.rb:12 | `chomp!("\n")` removes a trailing CRLF if there is one, else a single trailing LF or CR, and otherwise leaves the line as it is. |
| RubyText.SplitRecord | remove_duplicates.rb:12 | `split("\|", 2)` gives the text before the first "\|" and, if there is one, the rest. |
| RubyText.EachLineJoins | to_csv.rb:11 | The lines `each_line` yields join back to the input, and none holds a newline once chomped. |
| RubyText.HeaderLines | lib/tinyback/services/bitly.rb:80-81 | After the status line is shifted off, the header lines are what remains of the CRLF split. |
| RubyText.LocationHeader | lib/tinyback/services/bitly.rb:85 | The capture of `^Location: (.*)$` is the rest of the first line starting with "Location: ". There is no capture exactly when no line starts that way. |
| RubyText.Strip | lib/tinyback/services/bitly.rb:96 | The result is the input without its leading and trailing white space: it sits at the end of the leading run of spaces, everything around it is space, and it neither starts nor ends with space. |

## Left out

- The transport inside every `fetch` is a set of inputs: sockets, request writing, broken pipes and reads. The classification over what was read is modelled.
- Hpricot HTML scraping (is.gd and TinyURL) and `URI.parse`/`CGI.parse` (bit.ly) are function parameters.
- Threads, the mutex, the child thread killed after ten seconds, GC, Logger and gzip output are left out. The Ruby reaper runs its threads one after another, and a timeout is one possible outcome of an attempt.
- The monitor's `sleep`, its floating-point rates and `to_s`/`inspect` are left out. The abort test is stated on integers as 10 · blocked ≥ fetched, and the rates are real numbers.
- DNS lookups and Timeout in `IPManager.resolve` are the parameter `resolved`. Wall-clock time is the parameter `now`, or the `clock` of the Python reaper, where a sleep resumes at the later of `now` and the deadline.
- MD5 in `chain_generator` is an abstract hash function.
- GLib channel I/O and `g_file_test` are inputs. The algorithm of `g_array_sort` is replaced by an insertion sort that yields the sorted permutation.
- Drivers, command lines, the tracker client and the test harness are not part of this model.
- `each_line` on standard input is modelled on a string, and the Python generator feeding `Reaper.run` on a sequence of codes.
- Generators.Chain: `chain_generator` may loop forever when no digest is long enough. The model takes a bound on hash rounds and ends in `Cut` when the bound is reached.
- Generators.Sequence: the same holds for the successor steps of `sequence_generator`.
- Reaper.Harvester.FetchThread: the per-thread loop has the same kind of bound, and a thread that reaches it ends as `Cut`, an outcome the Ruby thread does not have.
- SortTool.Run: the death of the program on a crash line is the status None. The signal and what GLib has buffered for the out-file by then are not modelled.
- ShortUrl.CompareCodes: `strlen(a) - strlen(b)` is converted from `size_t` to `gint`. The model uses the plain difference, which is exact for codes shorter than 2^31 bytes.
- VerifyTool.VerifyFile: `last_code` is the whole previous code. It is not the seven-byte buffer that `strncpy` fills; see Findings.
- SortTool.LineRecord: the record keeps the whole code. sort.c:45 copies it with the same `strncpy` into `shorturl.code`, a stack struct whose byte 6 is never written, so a six-byte code is unterminated there as well; see Findings.
- The tests for TinyURL's blocked case expect CodeBlockedError. The code raises `BlockedError`, a name `services.rb` never defines, so the model raises NameError there.
- The is.gd tests expect a length limit and a letters-first order. The code has neither, and the model follows the code.
- The STDERR diagnostics of the line filters are left out: the "next" printed for a blank line (remove_duplicates.rb:9, to_csv.rb:14) and "Duplicate URLs for code …" (remove_duplicates.rb:18). They change neither the output nor the state.
- The messages of the C tools are left out, whether they go to standard output or to STDERR. In sort.c:145-221 these are the usage line, "Could not open in-file", "Out-file already exists", "Unable to open file", "Unable to read shorturls", "No data in input file", "Unable to write shorturls" and the progress line "Loop: %i" (sort.c:214). In verify.c:97-116 these are the usage line, "Could not open in-file", "Unable to open file" and "Unable to verify file". Only the exit statuses and the written records are modelled.
- `tinyback/services.py` and `tinyback/exceptions.py` only declare things. Their content is folded into `PyReaper`: the default rate limit None, and the class tree.

## Findings

| source | as written | input that shows it | evidently intended | confidence | as-written member | corrected member |
|---|---|---|---|---|---|---|
| src/verify.c:50 | `strncpy(last_code, split[0], MAX_CODE_LENGTH)` copies at most six bytes and writes no terminator when the code has six. Byte 6 of `last_code` keeps whatever it held, and the same holds for `shorturl.code` in src/sort.c:45. | a six-byte code such as `abcdef`, with a non-NUL byte 6 left in the buffer | copy the code with its terminator, as `g_strlcpy(.., MAX_CODE_LENGTH + 1)` in src/sort.c:102 does | not executed | ShortUrl.SixByteCodeUnterminated | ShortUrl.CopyReadsBack |
| src/sort.c:46 | `g_strndup(split[1], strlen(split[1]) - 1)` cuts the last byte of the rest whatever it is. On an empty rest the unsigned length wraps around, `g_new` allocates zero bytes and returns NULL, and the copy writes through NULL. | a last line `a\|` without a newline kills the program; a last line `a\|xy` without a newline is read as url `x` | cut only a final newline, so that an empty rest gives an empty url | not executed | SortTool.EmptyRestCrashes | SortTool.IntendedReadsBack |
| tinyback/generators.py:71 | The skip test `byte > m` keeps byte m as well. When n does not divide 256, byte m exists and maps to `charset[0]`. | a charset of 3 symbols: m = 255, and byte 255 gives `charset[0]`, which then has 86 preimages against 85 | skip `byte >= m`, so that the kept bytes are 0..m − 1 | not executed | Generators.KeptBytesBiased | Generators.IntendedUniform |
