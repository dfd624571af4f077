# Dormitory meal scraper — verified model of its core

The scraper fetches a dormitory's meal page for today's date, fixes the page's legacy Korean encoding,
and turns each row of the meal table into a record `{date, breakfast, lunch, dinner}`. The
records are written as a CSV that is uploaded under a key built from the configured CSV name.
This project models the three pieces of that pipeline that contain logic and proves what each
one promises.

- **Encoding override** (`EncodingFixer`, `encoding_fixer.dfy`). This is the downloader
  middleware's decision.
  - The raw `Content-Type` header bytes are decoded as ASCII, dropping every byte of 128 or
    more, then lowercased.
  - The header is searched for `euc-kr`, `ks_c_5601` or `cp949`.
  - Only when the header has none of these, the first 4096 body bytes, lowercased, are searched
    for `charset=euc-kr` or `charset=ks_c_5601`.
  - Any hit forces the codec `cp949`. Otherwise the response passes through unchanged.
  - The byte-level helpers live in `Ascii` (`ascii.dfy`) and substring search in `Search`
    (`search.dfy`).
- **Row extraction** (`DormSpider`, `dorm_spider.dfy`). This is the spider's `parse`.
  - A row arrives as the texts its CSS selectors would return.
  - `join_text` strips every text node, drops the empty ones and joins the rest with `&`. With
    nothing left it gives the sentinel `미운영` ("not operating").
  - Cells 0, 1 and 2 give breakfast, lunch and dinner. A missing cell gives the sentinel.
  - The date is the anchor text, or else the `th` text, or else the empty string, then stripped.
  - `parse` is a loop that appends one record per row.
  - Python's `str.strip` and `"&".join` are modelled in `PyStr` (`pystr.dfy`). `PyStr.Split`
    splits at `&`. The spider never does this, but the split is the inverse used to state that
    the join loses no fragment and reorders none (`SplitJoin`, `JoinTextSplit`).
- **Upload key** (`S3Key`, `s3_key.dfy`). This is `build_s3_key`: the CSV name with its
  extension cut off as POSIX `os.path.splitext` does, followed by `.csv`.

`Wrappers` (`wrappers.dfy`) holds the `Option` type.

Two details of the code shape the model:

- The `Content-Type` header is raw bytes, decoded with `decode("ascii", "ignore")` and then
  lowercased. The model takes an `Option<seq<byte>>`:
  - `None` stands for a missing header, and also for the `except` branch, since both yield `""`.
  - Because decoding drops high bytes, a marker can be spliced together across a dropped byte.
    `MarkerSplicedAcrossDroppedByte` shows this.
- The sentinel is the code's literal `미운영` (U+BBF8 U+C6B4 U+C601), the same for all three
  meals and every row.

## Model

| member | source | states |
|---|---|---|
| EncodingFixer.Resolve | main.py:44-52 | the decision is either no override or exactly `cp949`, whichever marker matched |
| EncodingFixer.ResolveIff | main.py:35-48 | the override happens if and only if some header marker occurs in the decoded, lowercased header or some body marker occurs in the lowercased 4096-byte window; no override exactly when neither occurs |
| EncodingFixer.HeaderMarkerWins | main.py:35-46 | a header marker forces `cp949` whatever the body holds |
| EncodingFixer.BodyMarkerFallback | main.py:42-48 | with no header marker, `charset=euc-kr` or `charset=ks_c_5601` in the body window forces `cp949` |
| EncodingFixer.NoMarkerUnchanged | main.py:51-53 | with no marker in the header or the body window the response is returned unchanged |
| EncodingFixer.ProcessResponse | main.py:37-53 | headers and body are kept; no decision means the same response, a decision means `cp949` is declared |
| EncodingFixer.ProcessResponseIdempotent | main.py:37-53 | applying the middleware twice equals applying it once |
| EncodingFixer.WindowOnly | main.py:42 | two bodies that agree on their first 4096 bytes give the same decision |
| EncodingFixer.MarkerPastWindowIgnored | main.py:42 | either body marker, placed anywhere at or after byte 4096, changes nothing |
| EncodingFixer.HeaderText | main.py:38-41 | the header text is ASCII with no upper-case letter, no longer than the raw header, and empty for a missing header |
| EncodingFixer.BodyWindowLower | main.py:42 | the window is the first `min(len, 4096)` body bytes, each lowercased |
| EncodingFixer.RawHeaderMarker | main.py:39-46 | a raw ASCII header holding a marker in any letter case forces `cp949` |
| EncodingFixer.HeaderCaseInsensitive | main.py:39-45 | headers equal up to ASCII case give the same decision |
| EncodingFixer.MissingHeaderIsEmpty | main.py:39-41 | a missing header decides as an empty one and contains no marker |
| EncodingFixer.Cp949OnlyInBody | main.py:47 | the body `charset=cp949` alone, with no header, does not trigger the override |
| EncodingFixer.Cp949MetaTagIgnored | main.py:47 | the body `<meta charset=cp949>` with no header does not trigger the override, though it is long enough to hold either body marker |
| EncodingFixer.NoBodyMarkerInMetaTag | main.py:47 | a window containing no `u` and no `k` byte holds neither `charset=euc-kr` nor `charset=ks_c_5601` |
| EncodingFixer.MarkerSplicedAcrossDroppedByte | main.py:39-46 | header bytes `euc`, 0xFF, `-KR` decode to `euc-kr` and force `cp949` |
| EncodingFixer.ContainsAnyIff | main.py:45 | `any(c in ct for c in ...)` holds if and only if some needle occurs at some index |
| Ascii.AsciiIgnore | main.py:39 | `decode("ascii", "ignore")` yields ASCII text no longer than its input |
| Ascii.AsciiIgnoreConcat | main.py:39 | decoding a concatenation is the concatenation of the decodings |
| Ascii.DropsHighByte | main.py:39 | a byte of 128 or more contributes nothing, wherever it stands |
| Ascii.AsciiIgnoreEncode | main.py:39 | decoding the bytes of an ASCII string gives it back |
| Ascii.LowerCommutes | main.py:39-42 | ASCII lowercasing before or after decoding gives the same text |
| Ascii.Encode | main.py:47 | a `b"..."` literal has one byte per character, each equal to that character's code |
| Ascii.LowerByte | main.py:42 | lowercasing a byte leaves no `A`..`Z` byte and changes a byte only if it is in `A`..`Z`, by adding 32 |
| Ascii.LowerChar | main.py:39 | lowercasing an ASCII character leaves no `A`..`Z` and changes a character only if it is in `A`..`Z`, by adding 32 |
| Ascii.LowerBytes | main.py:42 | `bytes.lower()` keeps the length and lowercases each byte |
| Ascii.LowerAscii | main.py:39 | `str.lower()` on ASCII text keeps it ASCII and lowercases each character |
| Search.Contains | main.py:45-47 | `needle in hay` as a left-to-right search; no contract of its own, its meaning is carried by `Search.ContainsIff` and `Search.LongerNotContained` |
| Search.ContainsAny | main.py:45 | `any(c in ct for c in ...)`; no contract of its own, its meaning is carried by `EncodingFixer.ContainsAnyIff` |
| Search.ContainsIff | main.py:45-47 | the substring test `in` holds if and only if the needle occurs at some index |
| Search.LongerNotContained | main.py:47 | a needle longer than the haystack never occurs |
| Search.ContainsInMiddle | main.py:45-47 | a needle placed between any two sequences is found |
| PyStr.IsSpace | dorm_spider.py:28-33 | membership in `PyStr.Whitespace`, the 29 code points for which `str.isspace()` holds and which `strip()` removes; no contract of its own, it is used by `PyStr.Strip` and the strip lemmas |
| PyStr.Strip | dorm_spider.py:28-33 | the strip is no longer than its input, starts and ends with non-whitespace, and is empty exactly when the input is all whitespace |
| PyStr.StripSlice | dorm_spider.py:28-33 | the strip is a slice of the input with only whitespace before and after it |
| PyStr.StripIdempotent | dorm_spider.py:28-33 | stripping twice equals stripping once |
| PyStr.StripUnchanged | dorm_spider.py:28-33 | a string with no whitespace at either end is its own strip |
| PyStr.StripUnique | dorm_spider.py:28-33 | whitespace around a trimmed core strips to exactly that core |
| PyStr.Join | dorm_spider.py:34 | `"&".join`; no contract of its own, its meaning is carried by `PyStr.JoinNonEmpty`, `PyStr.JoinAppend` and the round trip `PyStr.SplitJoin` |
| PyStr.JoinNonEmpty | dorm_spider.py:34 | joining a list whose first string is non-empty gives a non-empty string |
| PyStr.JoinAppend | dorm_spider.py:34 | joining two non-empty lists puts one `&` between their joins |
| PyStr.SplitJoin | dorm_spider.py:34 | splitting a join at `&` gives the pieces back when none holds `&` |
| DormSpider.StripAll | dorm_spider.py:33 | element `i` is the strip of text node `i` |
| DormSpider.NonEmpty | dorm_spider.py:33 | there are no more kept strings than inputs, every kept string is non-empty, and none are kept exactly when all are empty |
| DormSpider.Fragments | dorm_spider.py:33 | every fragment is non-empty, there are no more fragments than text nodes, and there are none exactly when every text node is blank |
| DormSpider.FragmentsTrimmed | dorm_spider.py:33 | every fragment is non-empty and starts and ends with non-whitespace |
| DormSpider.NonEmptyKeeps | dorm_spider.py:33 | the filter only keeps strings it was given |
| DormSpider.FragmentsAvoid | dorm_spider.py:33 | a character in no text node is in no fragment |
| DormSpider.NonEmptyAppend | dorm_spider.py:33 | filtering commutes with concatenation |
| DormSpider.FragmentsAppend | dorm_spider.py:33 | the fragments of consecutive text runs are each run's fragments in order, with no reordering or deduplication |
| DormSpider.JoinText | dorm_spider.py:32-34 | `join_text` is never empty; it is exactly the sentinel when every text node is blank (none at all included), else the `&`-join of the fragments |
| DormSpider.JoinTextDropsBlank | dorm_spider.py:33 | a blank text node anywhere does not change the joined text |
| DormSpider.SameFragmentsSameText | dorm_spider.py:33-34 | the joined text depends on the text nodes only through their fragments |
| DormSpider.JoinTextAppend | dorm_spider.py:33-34 | two runs that each hold text are joined with one `&` between their texts |
| DormSpider.JoinTextSplit | dorm_spider.py:33-34 | splitting the joined text at `&` gives back the fragments in document order when no text node holds `&` |
| DormSpider.JoinTextExample | dorm_spider.py:33-34 | text nodes `A`, ` B ` and an empty one give `A&B` |
| DormSpider.DateText | dorm_spider.py:27-28 | the date is stripped; it is the anchor text when that is present and non-empty, else the `th` text, else empty |
| DormSpider.BlankAnchorGivesEmptyDate | dorm_spider.py:27-28 | a blank but non-empty anchor text does not fall back to `th` and gives the empty date |
| DormSpider.MealAt | dorm_spider.py:36-38 | a meal is `join_text` of its cell when the cell exists, else the sentinel, and never empty |
| DormSpider.Assemble | dorm_spider.py:27-45 | a record has the date and, for cells 0, 1, 2, `join_text` of the cell when it exists and the sentinel otherwise |
| DormSpider.TwoCellsNoDinner | dorm_spider.py:36-38 | with two cells, dinner is the sentinel and breakfast and lunch come from the two cells |
| DormSpider.ExtraCellsIgnored | dorm_spider.py:36-38 | cells at index 3 and higher do not change the record |
| DormSpider.AssembleExample | dorm_spider.py:26-45 | the row `03/10(월)` with cells [쌀밥, 된장국], [] and [제육볶음] gives `{03/10(월), 쌀밥&된장국, 미운영, 제육볶음}` |
| DormSpider.Parse | dorm_spider.py:26-45 | one record per row, in row order, record `i` being the assembly of row `i` |
| S3Key.RFind | main.py:92 | the result is -1 or an index holding the character, with no occurrence after it |
| S3Key.SplitExt | main.py:92 | root and extension concatenate to the input |
| S3Key.SplitExtSound | main.py:92 | whatever is cut off is an extension: a `.` followed by neither `.` nor `/`, after a last path component that has a character other than `.` |
| S3Key.SplitExtUnique | main.py:92 | any extension split of the name is the one made, so there is at most one |
| S3Key.SplitExtNone | main.py:92 | a name with no extension split is left whole |
| S3Key.BuildS3Key | main.py:90-93 | an unset name gives no key (`splitext` raises); otherwise the key ends in `.csv` |
| S3Key.ReplacesExtension | main.py:92-93 | a name with an extension has that extension, and only it, replaced by `.csv` |
| S3Key.AppendsWithoutExtension | main.py:92-93 | a name without an extension gets `.csv` appended |
| S3Key.KeyStable | main.py:92-93 | when the base name has a stem, building the key from the key changes nothing |
| S3Key.DotFileKeepsName | main.py:92-93 | `.env` becomes `.env.csv`, since a leading dot is part of the name |
| S3Key.ExtensionReplacedExample | main.py:92-93 | `menu.txt` becomes `menu.csv` |
| S3Key.EmptyNameNotStable | main.py:92-93 | an empty name gives `.csv`, and `.csv` gives `.csv.csv` |

## Left out

- CSS selection (`table.boxstyle02 tbody tr`, `th a::text`, `th::text`, `td`, `::text`) belongs to Scrapy's HTML parser. A row is given as the texts those selectors return.
- The actual cp949 decoding is left out because the codec tables are external. Only the decision is modelled: `declaredEncoding` records the codec handed to `response.replace`.
- The middleware's `try`/`except` around the header decode needs no separate path. A missing header and the `except` branch both give the empty header text, which is `None` here.
- `start_requests` only formats the request URL from `datetime.now()` for the network fetch.
- `build_scrapy_settings`, `run_spider_to_csv` and `CrawlerProcess` only set configuration, logging and crawler scheduling.
- The CSV feed export (field order, UTF-8 or UTF-8-SIG) is done by Scrapy's exporter.
- `lambda_handler`, the S3 upload and environment loading are I/O. The CSV name is a parameter of `BuildS3Key`.
- S3Key.BuildS3Key: the current time that `build_s3_key` computes is never used, so the model takes no clock. Its independence from the time therefore holds by construction.
- S3Key.SplitExt: only POSIX paths are modelled (`/` separator, no alternative separator). This is `os.path` on the Linux host the function runs on.
- DormSpider.Parse: returns all records at once rather than yielding them one by one as a generator.
