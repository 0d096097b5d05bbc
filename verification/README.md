# TrackPickerBot: catalog scan and track selection

TrackPickerBot is a chat bot that reads the whole message history of one
channel and catalogs what users posted there: audio attachments and
hyperlinks, each with the creation time of its message. On the `run [date]`
command it replies with one random catalog item posted on or after the date.
The item is either an audio file, re-uploaded under a filename taken from its
URL, or a link.

This project models the decision logic of `bot.py` as pure Dafny functions.
The chat platform, HTTP and the scheduler are left out.

- `Wrappers` (wrappers.dfy): `Option`, standing for Python's `None`.
- `Text` (text.dfy): Python's `str.split()` over the characters
  `str.isspace()` accepts, and `str.split(sep)` with its inverse `sep.join`.
  It also holds the filename rule `url.split('/')[-1].split('?')[0]`.
- `CatalogScan` (catalog.dfy): messages, attachments and the catalog. This
  includes the `audio_files` list, the `links` list and the `message_dates`
  map. `Scan` is the functional definition of one pass over the history.
  `ScanHistory` is the loop of `update_audio_files` and is proved equal to it.
  `Refresh` covers the early returns and a scan cut short by an exception.
- `Selection` (selection.dfy): the body of `run`. Randomness comes in as
  oracle parameters: a `coin` for `random.choice([True, False])`, and a
  `pick` whose value modulo the list length is the index `random.choice`
  draws. The download outcome comes in as a `Download` value.

The history is a sequence in the order the platform yields it. discord.py
yields newest first. The date recorded for a URL is the time of the *last*
message in that order that posted it, because later dictionary assignments
overwrite earlier ones. With discord.py's order, that is the earliest
posting. Timestamps are natural numbers counted from `datetime.min`, which
is `MinTimestamp = 0`.

Points of `bot.py` worth knowing when reading the model:
- The file and link captions name the user who invoked `run`
  (`ctx.author.name`).
- `bot.py` keeps no record of items already sent, so an item can be sent
  again.
- If the catalog was never built, `run` raises: `bot.audio_files` is unset
  when the channel was missing or unreadable at the first scan. The model
  answers `Unavailable` in this case.

## Model

| member | source | states |
|---|---|---|
| Text.WordLen | bot.py:64 | the length of the longest whitespace-free prefix: everything before it is non-whitespace and the next character, if any, is whitespace |
| Text.Words | bot.py:64 | `str.split()` yields only non-empty words that contain no whitespace |
| Text.DelimitedRunIsWord | bot.py:64 | every non-empty whitespace-free run of the text with whitespace or an end of the text on each side is one of its words |
| Text.WordsOccur | bot.py:64 | every word of a message's text is a contiguous piece of that text with whitespace or an end of the text on each side, so a maximal whitespace-free run |
| Text.WordsKeepAllText | bot.py:64 | splitting loses only whitespace: the words glued together are exactly the non-whitespace characters of the text, in order |
| Text.WordsUnwords | bot.py:64 | round trip: splitting non-empty whitespace-free words joined by spaces gives the same words back |
| Text.Split | bot.py:112 | `str.split(sep)` yields at least one piece and no piece contains the separator |
| Text.JoinSplit | bot.py:112 | joining the pieces of a split with the separator rebuilds the string |
| Text.SplitJoin | bot.py:112 | splitting a separator-free list of pieces joined by the separator gives the pieces back |
| Text.SplitFirstIsPrefix | bot.py:112 | the first piece (`[0]`) is the prefix up to the first separator, or the whole string |
| Text.SplitLastIsSuffix | bot.py:112 | the last piece (`[-1]`) is the suffix after the last separator, or the whole string |
| Text.Filename | bot.py:112 | the derived filename contains neither `/` nor `?` |
| Text.FilenameIsLastSegment | bot.py:112 | the filename is the slice of the URL that starts after its last `/` and ends at the first `?` after that, or at the end |
| CatalogScan.Stamp | bot.py:58-67 | after assigning the date to each URL in turn, exactly the old keys and those URLs are dated; those URLs carry the new date and every other key keeps its old date |
| CatalogScan.AudioUrlsMembers | bot.py:58-60 | a URL is collected from a message's attachments exactly when some attachment has that URL and a content type that is present and starts with "audio" |
| CatalogScan.LinkWordsMembers | bot.py:64-66 | a word is collected exactly when it is a word of the text and starts with "http://" or "https://" |
| CatalogScan.AbsorbedUrls | bot.py:55-67 | a user message contributes to the audio list exactly the audio URLs it posts, and to the link list exactly the hyperlink words it posts |
| CatalogScan.AbsorbKeepsValid | bot.py:58-67 | processing one message keeps the catalog consistent: the dated URLs are exactly the listed ones |
| CatalogScan.Absorb | bot.py:55-67 | processing one message only appends to the audio and link lists and never removes a dated URL |
| CatalogScan.Scan | bot.py:50-67 | after a scan every listed audio file and link has a date, so the date filter's lookup cannot fail, and no other URL is dated |
| CatalogScan.ScanAudioMembers | bot.py:54-61 | a URL is in the audio list exactly when some non-bot message of the history has an attachment with that URL whose content type starts with "audio" |
| CatalogScan.ScanLinkMembers | bot.py:54-67 | a URL is in the link list exactly when it is a whitespace-free word starting with "http://" or "https://" in the text of some non-bot message |
| CatalogScan.AbsorbDates | bot.py:56-67 | a message that contributes a URL sets its date to the message's creation time; any other message leaves that URL's date unchanged |
| CatalogScan.ContributesIsPosts | bot.py:55-67 | the URLs the scan collects from a message are exactly the URLs that message posts as audio attachments or hyperlinks |
| CatalogScan.ScanDatesContributor | bot.py:56-67 | a dated URL carries the creation time of the last message in the history from which the scan collected it |
| CatalogScan.ScanDates | bot.py:56-67 | a dated URL carries the creation time of the last message in the history that posted it, and no later message posts it |
| CatalogScan.ScanSkipsBots | bot.py:55 | messages written by bots contribute nothing: scanning the history gives the same catalog as scanning only the users' messages |
| CatalogScan.AbsorbMerge | bot.py:54-67 | processing a message after a merged catalog equals merging with the later part after processing it |
| CatalogScan.ScanAppend | bot.py:54-67 | the scan of two consecutive stretches of history is the earlier scan followed by the later one: lists concatenate, later dates override |
| CatalogScan.AddAudio | bot.py:58-62 | the attachment loop appends exactly the message's audio URLs to the list and dates each with the message's time |
| CatalogScan.AddLinks | bot.py:64-68 | the word loop appends exactly the hyperlink words to the list and dates each with the message's time |
| CatalogScan.ScanHistory | bot.py:50-68 | the loop over the history builds the same audio list, link list and date map as the functional scan |
| CatalogScan.Refresh | bot.py:39-72 | a missing channel or a missing history permission leaves the catalog as it was; otherwise the catalog is replaced by the scan of some prefix of the history (all of it unless an exception cut the scan short), which is consistent |
| CatalogScan.ScanPrefixLists | bot.py:54-72 | the scan of a prefix of the history, which is what an exception mid-scan leaves, has prefixes of the full scan's audio and link lists |
| CatalogScan.RefreshDates | bot.py:50-72 | after a refresh that reads the history, complete or interrupted, every dated URL carries the creation time of the last message that posted it among the messages fetched |
| CatalogScan.RefreshKeepsPrefix | bot.py:50-72 | a refresh that reads the history yields prefixes of the full scan's audio and link lists if interrupted by an exception, and exactly the full scan if not |
| Selection.StartDate | bot.py:95-99 | an omitted or empty date argument starts the window at the minimum timestamp; a non-empty argument starts it at its parsed date, or fails when it does not parse |
| Selection.FilterSince | bot.py:101-102 | a URL is kept exactly when it is listed and its recorded date is at or after the start date |
| Selection.FilterIsSubsequence | bot.py:101-102 | the filtered list is an order-preserving subsequence of the catalog list |
| Selection.FilterCounts | bot.py:101-102 | each URL dated at or after the start date is kept as many times as it is listed, and every other URL is dropped entirely |
| Selection.FilterFromMinKeepsAll | bot.py:99-102 | with the start date at the minimum timestamp, filtering returns the list unchanged |
| Selection.Pick | bot.py:109 | the drawn element is a member of the list it is drawn from |
| Selection.PickReaches | bot.py:118 | every position of the list can be drawn |
| Selection.Choose | bot.py:108-120 | an audio reply carries a member of the filtered audio list and happens only if links are empty or the coin says audio; a link reply carries a member of the filtered link list and happens only if audio is empty or the coin says link; a file is sent only on HTTP status 200, under the derived filename |
| Selection.Run | bot.py:88-123 | "not loaded" exactly when both catalog lists are empty; a malformed date is reported only for a non-empty catalog; a sent item is always a catalog URL of the chosen kind, dated at or after the start date |
| Selection.NothingForDateExactly | bot.py:101-106 | "nothing for that date" is the reply exactly when no listed URL was posted at or after the start date |
| Selection.KindChoice | bot.py:108-118 | audio is chosen exactly when some audio file is eligible and either no link is or the coin says audio; a link is chosen exactly when some link is eligible and either no audio file is or the coin says link |
| Selection.CoinOnlyBreaksTies | bot.py:108 | when at most one kind has eligible items, the coin does not affect the reply |
| Selection.RunChooses | bot.py:101-120 | once something is eligible, `run` answers with the choice between the two filtered lists |
| Selection.EveryAudioReachable | bot.py:108-114 | every eligible audio file is sent, under its derived filename, for some random draw |
| Selection.EveryLinkReachable | bot.py:117-120 | every eligible link is sent for some random draw |
| Selection.OmittedDateMeansEverything | bot.py:95-102 | omitting the date is the same as giving the minimum date, and a non-empty catalog then never yields "nothing for that date" |
| Selection.RefreshedCatalogIsDated | bot.py:50-102 | every catalog a refresh can produce meets `run`'s requirement that each listed URL has a date |

## Left out

- Discord client setup, intents, login, command dispatch and the text of the replies (`bot.py:20-27`, `80-84`): platform I/O. Replies are the constructors of `Selection.Reply`.
- Channel lookup and the permission check (`bot.py:40-48`): the outcome is an input (`CatalogScan.Access`).
- Exceptions during the history scan (`bot.py:71-72`): modelled only as a failure to fetch the next message, after which the catalog is the scan of the messages fetched so far. Failures in the middle of one message are not modelled.
- `download_file` and aiohttp (`bot.py:30-36`): the outcome is an input (`Selection.Download`). The bytes and the upload are not modelled. A failing `ctx.send` of the file, which the same handler would also report as an error, is not modelled.
- The hourly re-scan loop (`bot.py:75-77`): scheduling. Interleaving between a running `run` and a refresh in progress is not modelled. Such a `run` could see a half-built catalog.
- `datetime.strptime(date, '%d.%m.%Y')` and the UTC conversion (`bot.py:96-97`): the parse result is part of the input (`Selection.DateArg`). Dates are abstract natural numbers.
- `random.choice` (`bot.py:108-109`, `118`): replaced by the oracle parameters `coin` and `pick`. The model shows every item is reachable, not that the draw is uniform.
