# openWPD core, modelled in Dafny

openWPD downloads the photos (and, on request, the videos) that a Weibo user
has posted. This project models the logic at its core, all of it in
`openWPD.py`:

- **short ids**: `bid_to_mid` turns a post's base-62 short id into its numeric id (`short_id.dfy`);
- **mixed comparison**: `compare` compares an id, infinity or date bound with a post's `[mid, date]` (`ordering.dfy`);
- **the `-b` range**: the `lower:upper` range of ids or `@YYYYMMDD` dates, including `strptime('@%Y%m%d')` (`boundary.dfy`);
- **the feed scan**: `get_resources`, a page loop over fetch outcomes with card filtering and photo/video extraction (`feed.dfy`, `scanner.dfy`);
- **file names**: `format_name`, with `safeify`, the url-to-name regular expressions and the `{key:argument}` template substitution (`naming.dfy`);
- **helpers**: `nargs_fit` (`command_line.dfy`), `merge` (`dicts.dfy`) and the download retry rounds (`retry.dfy`);
- **Python built-ins**: the string built-ins these rely on (`str.split`, `join`, `strip`, `zfill`, `str(int)`, `int(str)`), stated once in `text.dfy`.

Code that changes state step by step is modelled as methods with loops:

- `get_resources`: its page loop (`Scanner.GetResources`), the loop body (`Scanner.PassOnce`), its card loop and its photo loop;
- `nargs_fit`, which rewrites an array in place;
- `merge`;
- `safeify`;
- the retry loop.

Each of these loops except `merge` is proved equal to a specification
function, and the properties the program relies on are proved about those
functions as lemmas. `merge` is proved against a direct statement of its
result: the union of the keys, each value taken from the last dictionary
holding it. The boundary block (`Boundary.ParseBoundary`) is a method
without a loop. It is proved to accept exactly the ranges whose sides parse
and are in order. It takes the short-id decoder as a parameter: `bid_to_mid`
as written, or the corrected decoder (see Findings).

Things the core does not compute are inputs to the model:

- page fetches are a finite sequence of outcomes;
- download results are a function from (round, position) to success;
- a post's date is an optional date;
- `date.strftime` is a function parameter.

## Model

| member | source | states |
|---|---|---|
| ShortId.CharIndex | openWPD.py:180-183 | a character has a base-62 digit exactly when it is in the alphabet `0-9a-zA-Z`, and the digit's symbol is that character |
| ShortId.ChunkValue | openWPD.py:191-194 | a chunk has a value exactly when all its characters are in the alphabet (otherwise `KeyError`), and the value is below 62 to the chunk's length |
| ShortId.ChunkValueIsPowerSum | openWPD.py:193-194 | a chunk's value is the sum of each symbol's digit times 62 to its position counted from the right, as the program's `sum` computes it |
| ShortId.Convert | openWPD.py:191-196 | a converted chunk is defined exactly for alphabet chunks, and is a digit string at least seven long that reads as the chunk's base-62 value |
| ShortId.ConvertAll | openWPD.py:199-200 | the joined chunks exist exactly when every chunk is over the alphabet, and then form a digit string of at least seven digits per chunk |
| ShortId.WrittenChunks | openWPD.py:186-188 | the program slices `ceil(len/4)` chunks: enough groups of four to cover the id, and less than one group more |
| ShortId.BidToMid | openWPD.py:170-203 | as written: `ValueError` exactly for the empty string, a number exactly when every sliced chunk (`ShortId.WrittenChunk`, the slice `string[max(-4*(i+1), -len):-4*i]`) is over the alphabet, and `KeyError` otherwise |
| ShortId.WrittenChunkZero | openWPD.py:187 | chunk 0 is always empty, because its slice ends at `-4*0 == 0` |
| ShortId.WrittenChunkGroup | openWPD.py:187-188 | every later chunk `i` is the `i`-th group of four from the right, so groups come out rightmost first |
| ShortId.LastFourIgnored | openWPD.py:186-203 | as written, the last four characters of a short id never affect the result, even characters outside the alphabet |
| ShortId.BidToMidShort | openWPD.py:186-203 | as written, any one to four characters decode to 0 and the empty string raises `ValueError` |
| ShortId.WrittenDropsLastGroup | openWPD.py:186-203 | on `"10000"` the decoder as written gives 1 where the corrected decoder gives 10000000 |
| ShortId.FixedDigits | openWPD.py:186-200 | the corrected chunking (groups of four from the right, most significant first) yields a digit string exactly when every character is in the alphabet |
| ShortId.BidToMidFixed | openWPD.py:170-203 | the corrected decoder: `ValueError` exactly for the empty string, a number exactly for a non-empty id over the alphabet, and `KeyError` otherwise |
| ShortId.Base62 | openWPD.py:180-194 | every number has a base-62 writing whose chunk value is that number |
| ShortId.Pad4 | openWPD.py:191-194 | padding with the zero symbol to four characters keeps a chunk's value |
| ShortId.MidToBid | openWPD.py:172-176 | the encoding the docstring describes is a non-empty string over the alphabet, of at most four symbols exactly for ids below 10000000 |
| ShortId.FixedRoundTrip | openWPD.py:172-203 | the corrected decoder inverts the encoder: `BidToMidFixed(MidToBid(m)) == Ok(m)` for every id |
| ShortId.FixedDigitsOfEncoding | openWPD.py:186-203 | the corrected chunks of an encoded id read back as the id's decimal digits |
| Ordering.Relation | openWPD.py:226-232 | exactly one of `>`, `=`, `<` is selected for two comparable values, matching `>`, `==` and the remaining case |
| Ordering.Compare | openWPD.py:223-235 | `None` exactly when no candidate is comparable (every comparison raises `TypeError`); otherwise the first comparable candidate decides whether the selected symbol is in `operation` |
| Ordering.CompareAgainstPoint | openWPD.py:223-235 | against `[mid, date]`, a numeric bound is decided by the id, a date bound by the date, and a date bound against a post without a date gives `None` |
| Ordering.BelowLowerMeaning | openWPD.py:278 | `compare(lower, '>', point)` holds exactly for an id below an id bound, any post under an infinite lower bound, or a date before a date bound |
| Ordering.AboveUpperMeaning | openWPD.py:280 | `compare(upper, '<', point)` holds exactly for an id above an id bound or a date after a date bound |
| Ordering.IdGreater | openWPD.py:227-228 | a larger id bound compares as greater whatever the post's date |
| Ordering.DateBoundWithoutDate | openWPD.py:234-235 | a date bound never excludes a post whose date is unknown |
| Ordering.LaterCandidatesIgnored | openWPD.py:224-233 | once a candidate is comparable, later candidates do not affect the result |
| Boundary.MonthAlternatives | openWPD.py:439-440 | every match of `%m` reads the first one or two characters, which are digits whose number is the month, from 1 to 12 |
| Boundary.DayAlternatives | openWPD.py:439-440 | every match of `%d` reads the first one or two characters, digits or a blank and a digit, whose number is the day, from 1 to 31 |
| Boundary.MonthDay | openWPD.py:439-440 | `%m%d` takes the first month alternative after which some day alternative matches, with that day's first alternative, as the regular expression backtracks; it fails exactly when no month alternative is followed by a day, and otherwise consumes at least two characters |
| Boundary.ParseDate | openWPD.py:439-440 | a parsed date is a valid date, its text starts with `@` and has at least seven characters, and the year is the number its four digits read; the month and day are those `Boundary.MonthDay` finds |
| Boundary.ParseDateArgument | openWPD.py:439-440 | every valid date written as `@YYYYMMDD` parses back to that date |
| Boundary.ParsePoint | openWPD.py:442-446 | a side parses to an id or a date, to a date exactly when it starts with `@`, and such a side parses exactly when `strptime` accepts it, to the date `strptime` gives |
| Boundary.ParsePointDigits | openWPD.py:433-435 | a side of decimal digits, allowing one final newline as `$` does, is that number, whichever short-id decoder is used |
| Boundary.ParsePointShortId | openWPD.py:436-437 | any other side goes to the short-id decoder and parses exactly when the decoder succeeds, to its value; a character outside the alphabet raises `KeyError` in the corrected decoder, while as written every side of one to four characters is 0 |
| Boundary.ParseBoundary | openWPD.py:430-455 | for either decoder, the range is accepted exactly when both sides parse and two sides of the same type are in order, and then holds those values; every accepted range is well ordered |
| Boundary.SidesSingle | openWPD.py:430-431 | a single part is both bounds |
| Boundary.SidesPair | openWPD.py:430-431 | only the first two colon-separated parts matter |
| Boundary.ShortSideRange | openWPD.py:430-455 | as written, a range given as one side of one to four characters that is neither digits nor a date is [0, 0] whatever its characters; the corrected decoder rejects it when a character is outside the alphabet |
| Boundary.ShortSideExample | openWPD.py:430-455 | `-b abc!` is the range [0, 0] as written and is rejected with `KeyError` by the corrected decoder |
| Boundary.DefaultRange | openWPD.py:449-451 | the default `:` is the range from 0 to infinity |
| Boundary.IdsOutOfOrder | openWPD.py:452-453 | two ids are rejected exactly when lower > upper, and an id against infinity is never checked |
| Feed.AppendPhotos | openWPD.py:282-288 | the photo loop appends exactly the photos of the pictures to the resource list |
| Feed.PhotosMeaning | openWPD.py:283-288 | each picture with a large rendition becomes one photo with its original 1-based position, in picture order, gaps kept, and nothing else becomes a photo |
| Feed.PhotosCount | openWPD.py:283-288 | there are as many photos as pictures with a large rendition |
| Feed.FirstStream | openWPD.py:292-296 | the chosen stream is the first of `mp4_720p_mp4`, `mp4_hd_url`, `mp4_sd_url`, `stream_url` with a non-empty url, and there is none exactly when all are missing or empty |
| Feed.CardResources | openWPD.py:266-296 | a card yields resources only when it is an unpinned post in range; every resource carries the post's mark; without videos requested, a post without `pics` yields nothing |
| Feed.PostResources | openWPD.py:282-296 | every resource carries the post's mark; a post with `pics` yields only photos; otherwise at most one video, and none when videos are not wanted |
| Feed.VideoPost | openWPD.py:289-296 | a post with media info and no `pics` key yields exactly the best stream as one video |
| Feed.PicsExcludeVideo | openWPD.py:282-289 | a post with a `pics` key never yields a video |
| Feed.UndatedPostKept | openWPD.py:278-281 | a post without a date is never filtered out by date bounds |
| Scanner.AnalysePage | openWPD.py:265-296 | the card loop computes the page specification card by card |
| Scanner.GetResources | openWPD.py:238-305 | the page loop returns the resources and post count of the scan over the outcomes, and takes exactly as many outcomes as the scan consumes |
| Scanner.PassOnce | openWPD.py:249-299 | the loop body computes one pass of the scan for a fetch outcome |
| Scanner.CardStep | openWPD.py:265-296 | one card keeps the page number, empty count and total, counts exactly an unpinned post, never clears `exceed`, and only appends resources |
| Scanner.PageStep | openWPD.py:265-296 | a page keeps the page number, empty count and total, counts at most one post per card, never clears `exceed`, and only appends resources |
| Scanner.Step | openWPD.py:249-299 | one pass advances the page number by at most one, never lowers the post count, and only appends resources |
| Scanner.Run | openWPD.py:248-299 | the scan never lowers the page number or the post count and only appends resources |
| Scanner.Consumed | openWPD.py:248 | the scan consumes at most the outcomes given |
| Scanner.PageStepMeaning | openWPD.py:261-296 | a page keeps the page number, empty count and total; it counts exactly its unpinned posts, appends their resources in card order, and sets `exceed` exactly when one of its posts is below the lower bound |
| Scanner.PinnedSkipped | openWPD.py:266-269 | a pinned post or a card without `mblog` changes nothing |
| Scanner.StepPage | openWPD.py:254-299 | the page number advances by one on a fetched page and never otherwise |
| Scanner.FetchedEmpty | openWPD.py:261 | a page with `ok == 0` raises the empty count and ends the scan, yet its cards are processed; any other page resets the count |
| Scanner.StepTotal | openWPD.py:262-263 | the first known total is kept |
| Scanner.RunStops | openWPD.py:248 | the scan ends only when `empty < aware and not exceed` fails or the outcomes run out |
| Scanner.FailureRetried | openWPD.py:258-259 | a failed fetch changes nothing, so the same page is fetched again |
| Scanner.BlockedEnds | openWPD.py:254-257 | HTTP 418 ends the scan at once, keeping what was found |
| Scanner.RunPage | openWPD.py:239-299 | the final page number is 1 plus the number of pages fetched |
| Scanner.AllResourcesInRange | openWPD.py:278-281 | no resource of a page lies outside the range |
| Scanner.StepInRange | openWPD.py:278-296 | one pass keeps every resource inside the range |
| Scanner.RunResources | openWPD.py:246-296 | resources are only ever appended, and all lie in the range |
| Scanner.ResultInRange | openWPD.py:238-305 | everything `get_resources` returns lies in the range |
| Scanner.ExceedEnds | openWPD.py:248-279 | a page holding a post below the lower bound is the last page fetched |
| Naming.Safeify | openWPD.py:311-316 | the nine sequential `replace` calls equal the pointwise full-width map |
| Naming.SafeChar | openWPD.py:312-313 | each of `\ / : * ? " < > \|` is replaced by a different, legal character and every other character is kept |
| Naming.Safe | openWPD.py:311-316 | a safe name keeps its length and maps each character on its own |
| Naming.TemplateFacts | openWPD.py:312-313 | the nine template entries are the illegal characters, each once, each mapped to its full-width form |
| Naming.SafeIdempotent | openWPD.py:311-316 | a safe name has no illegal character, and making it safe again changes nothing |
| Naming.SafeClean | openWPD.py:311-316 | a name without illegal characters is unchanged |
| Naming.StripDirectory | openWPD.py:309 | `re.sub(r'^\S+/', '', url)` keeps a suffix of the url |
| Naming.LastSlash | openWPD.py:309 | the cut is at the last slash of the leading non-blank run, not at position 0 |
| Naming.FirstQuery | openWPD.py:309 | the query match is the leftmost `?` followed by non-blank characters up to `$` |
| Naming.StripQuery | openWPD.py:309 | removing the query never lengthens the name |
| Naming.NameOf | openWPD.py:309 | the name cut from a url is never longer than the url |
| Naming.StripDirectoryAfter | openWPD.py:309 | for a blank-free url, everything up to the last slash is removed |
| Naming.StripQueryAfter | openWPD.py:309 | a blank-free query at the end of a name without `?` is removed |
| Naming.NameOfUrl | openWPD.py:309 | for `dir/file?query` the name is `file` |
| Naming.Closing | openWPD.py:327-331 | a lazy group ends at the first closing character that no newline precedes |
| Naming.Substitute | openWPD.py:331 | substitution fails only on a text holding `{`, and then with the error of some replacement |
| Naming.SubstitutePlain | openWPD.py:331 | text without `{` passes through substitution unchanged |
| Naming.SubstituteGroup | openWPD.py:331 | a group is replaced by its replacement, the text before it is kept, the rest is substituted in turn, and the first error aborts |
| Naming.Then | openWPD.py:318-331 | a text built from two parts succeeds exactly when both do and is then their concatenation; an error in the first part is the result |
| Naming.SubstituteAtGroup | openWPD.py:331 | a group at the start of the text is replaced and the text after it substituted in turn |
| Naming.RemoveTag | openWPD.py:327 | an HTML tag is removed from a post's text |
| Naming.Replace | openWPD.py:318-329 | a replacement raises only for the `date` key (`AttributeError`) or the `index` key (`ValueError`); other fields are rendered by `Naming.DateText` (`str(date)`), `Naming.FieldText` (`str(item[key])`) and `Naming.RemoveTags` (the post text without HTML tags) |
| Naming.UnknownKey | openWPD.py:320-321 | a group whose key is not a field is left as its own text, colons included |
| Naming.VideoIndex | openWPD.py:320-321 | `{index}` of a video, which has no index, gives `index` |
| Naming.IndexWidth | openWPD.py:324-325 | `{index:w}` zero-fills the position to width `w`, which still reads as the position, and a width that is not an integer raises `ValueError` |
| Naming.DateKey | openWPD.py:322-323 | `{date}` is the ISO date or `None`, and `{date:fmt}` is `strftime(fmt)` or `AttributeError` for a missing date |
| Naming.NameKey | openWPD.py:309-331 | `{name}` is the name cut from the url |
| Naming.KeyArgument | openWPD.py:319 | `key:argument` splits into the key and the argument |
| Naming.GroupTemplate | openWPD.py:318-331 | a template of one group gives that group's text made safe, or the error its replacement raises |
| Naming.DefaultTemplate | openWPD.py:309-331 | the default template `{name}` names each file after its url, made safe |
| Naming.FixedTemplate | openWPD.py:331 | a template without groups gives the same safe name for every resource |
| Naming.FormatName | openWPD.py:308-331 | a formatted name holds no illegal character, and formatting fails only for a template holding `{` |
| CommandLine.NargsFit | openWPD.py:46-65 | the in-place loop leaves exactly the fitted argument list; `CommandLine.Validate` models `validate` and `CommandLine.Greedy` the `greedy` flag it updates |
| CommandLine.Fitted | openWPD.py:53-63 | the list keeps its length |
| CommandLine.FittedChange | openWPD.py:54-63 | each argument is kept or gains one leading space, and it gains the space exactly when it starts with `-`, is not a valid option and comes in greedy mode |
| CommandLine.GreedyFitted | openWPD.py:54-61 | the greedy flag moves the same way over the fitted list |
| CommandLine.FittedIdempotent | openWPD.py:19-65 | fitting twice is fitting once |
| CommandLine.ValueAfterOption | openWPD.py:57-63 | a dash-led non-option right after a value-taking option gets its space |
| CommandLine.NoValueOptions | openWPD.py:50-63 | without a valid value-taking option nothing changes |
| CommandLine.DashedUserName | openWPD.py:19-65 | with the program's own options, a user name after `-u` that starts with a dash is protected, while `-vo` ends greedy mode |
| Dicts.Merge | openWPD.py:98-102 | the merged keys are the union of all keys, and each value comes from the last dictionary that holds the key |
| Retry.FailedIndices | openWPD.py:496-513 | the failed indices are exactly the failed positions, increasing, each once |
| Retry.NextRound | openWPD.py:535 | the next round has one entry per failed index |
| Retry.NextRoundMeaning | openWPD.py:535 | the next round holds exactly the failed resources, as many as there are failures |
| Retry.NextRoundSnoc | openWPD.py:535 | one more resource joins the next round exactly when its download fails |
| Retry.NextRoundSub | openWPD.py:535 | the next round never holds more copies of a resource than this one |
| Retry.AllSucceed | openWPD.py:535 | a round without failures leaves nothing to retry |
| Retry.Rounds | openWPD.py:487-536 | the retry loop leaves the specified remaining resources after the specified number of rounds |
| Retry.Remaining | openWPD.py:488-536 | what is left after the rounds is never longer than the list they start from |
| Retry.RoundsRun | openWPD.py:488 | at most `retry + 1` rounds run, none when `retry` is negative, and none on an empty list |
| Retry.RemainingMeaning | openWPD.py:488-536 | what is left was in the original list, and a non-empty remainder means every allowed round ran |
| Retry.FirstRoundSucceeds | openWPD.py:488-535 | when the first round succeeds fully, one round runs and nothing is left |
| Text.Split | openWPD.py:430-431 | `str.split` on one character gives at least one part, none containing the separator |
| Text.JoinSplit | openWPD.py:321 | joining the parts of a split gives back the text |
| Text.SplitJoin | openWPD.py:430 | splitting a join of separator-free parts gives back the parts |
| Text.SplitCons | openWPD.py:430-431 | a part without the separator, followed by the separator, is split off whole |
| Text.ParseInt | openWPD.py:433-437 | `int(s)` succeeds exactly on an optionally signed run of digits after stripping |
| Text.ParseIntZFill | openWPD.py:325 | a zero-filled `str(n)` reads back as `n` |
| Text.ZFill | openWPD.py:325 | `zfill` pads to the width and never shortens |
| Text.ZFillValue | openWPD.py:196 | zero filling keeps a digit string's value |
| Text.Digits | openWPD.py:196 | `str(n)` is the shortest digit string of value `n` |
| Text.DecimalValueAppend | openWPD.py:200-203 | reading concatenated digit strings shifts the first by the length of the second |
| Text.StripLeft | openWPD.py:327 | `lstrip` removes exactly the leading whitespace |
| Text.StripRight | openWPD.py:327 | `rstrip` removes exactly the trailing whitespace |

## Left out

- HTTP requests (`request_fit`, `nickname_to_uid`, `uid_to_nickname`, the page fetch): network I/O. Each fetch is an input outcome: blocked (418), failed (any other exception), or a page.
- `download`, `read_from_file`, `make_dir`, `confirm`, `quit`, `input_fit`, `print_fit` and the progress lines: file and terminal I/O.
- The percent branch of `progress`: float division.
- `time.sleep`, `time.ctime`, the thread pool, the `task.done()` polling and `KeyboardInterrupt` cancellation: timing, concurrency and signals.
- `parse_date`: it depends on the current time, so a post's date is an input `Option<Date>`.
- argparse itself: `nargs_fit` takes the table from option string to `nargs` as an input.
- Scanner.GetResources: the endless retry of failed fetches is bounded by the finite outcome sequence. A page is assumed to have `data.cards` and numeric `mid` values; where these are missing the program raises out of the loop.
- Scanner.GetResources: the returned post count stands in for the printed `amount`; the printed totals are left out.
- Retry.Rounds: the failed resources are retried in index order. The program retries them in the order the polling loop first sees each failure, which depends on thread timing; the set and count of retried resources are the same.
- Naming.Replace: `date.strftime(fmt)` is a function parameter, not a model of `strftime`.
- Feed.PostResources: media urls that are JSON `null` are treated as empty.
- Feed.PostResources: `isTop` is taken as a boolean.
- Text.ParseInt: only ASCII digits count as digits. Python's `int()` and `\d` also accept other Unicode decimal digits and underscores between digits.
- Boundary.ParsePoint: only ASCII digits count as digits. Other Unicode decimal digits are sent to the short-id decoder.
- Boundary.ParsePointShortId: which decoder a short-id side goes through is a parameter, because the two disagree on almost every id. As written, the decoder ignores the last four characters, even characters outside the alphabet, and reverses the order of the other groups of four. So `abc!` and `-5` are 0 as written and raise `KeyError` when corrected, and `10000` is 1 as written and 10000000 when corrected.
- Boundary.ParseBoundary: with the decoder as written, `-b abc!` or `-b -5` is accepted as the range [0, 0] (`Boundary.ShortSideRange`). With the corrected decoder, a range is accepted only when its short ids are over the alphabet.
- Boundary.ParseBoundary: the message printed before quitting is left out; `None` stands for "invalid id range".

## Findings

`bid_to_mid` does not slice its input the way its comment and the base-62
encoding of post ids describe. Chunk 0 is `string[-4:0]`, which is always
empty. The other chunks are joined with the rightmost group first. As a
result, the last four symbols are ignored and the group order is reversed.
The range parser (`Boundary.ParsePoint`) takes the decoder as a parameter, so both are modelled; `Boundary.ShortSideRange` shows what the program as written accepts.

| source | as written | input that shows it | evidently intended | confidence | as-written member | corrected member |
|---|---|---|---|---|---|---|
| openWPD.py:187-188 | chunk `i` is `string[max(-4*(i+1), -len):-4*i]`, so chunk 0 is always empty and the groups are joined rightmost first | `"10000"` decodes to 1 (and so does any string ending in four characters after `"1"`) | groups of four from the right, most significant first: `"10000"` decodes to 10000000 | high, not executed | ShortId.WrittenDropsLastGroup | ShortId.FixedRoundTrip |
