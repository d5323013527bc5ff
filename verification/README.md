# Media listing handler — Dafny model

This project models the serverless endpoint `get-files.js`. The endpoint lists
the media files in the root of a GitHub repository. It reads the directory
listing from the GitHub contents API. It keeps the entries that are files with a
name whose extension is on a fixed allow-list: the video extensions
`mp4 webm mov avi mkv` and the image extensions `jpg jpeg png gif webp svg bmp`.
Each survivor becomes a record `{id, type, url, title, path, date, size}` whose
`type` is `video` or `image`. The handler answers 200 with that list, or 500
with an error object.

Modules, one per concept:

- `Ascii` (`ascii.dfy`): lower-casing, standing in for `toLowerCase`.
- `StringSplit` (`split.dfy`): `split` on one character, its inverse `join`,
  and the last piece that `pop` returns.
- `Decimal` (`decimal.dfy`): decimal text of the HTTP status in the error
  message.
- `Media` (`media.dfy`): the extension sets, extension extraction, the filter,
  the classification, and the filter/map transform.
- `Handler` (`handler.dfy`): the outcome decision over abstract inputs.

Inputs the handler gets from its environment are parameters:

- The token is a string; `""` stands for unset or empty. JavaScript treats
  both as falsy.
- The upstream answer is a value of `Handler.Upstream`: either a failed
  request with its message, or a status, a status text and a parsed body.
- The clock is a function `nat -> string`. The handler calls `new Date()`
  once per record, so the `i`-th record gets `clock(i)`.

In a listing entry, an absent, `null` or empty `type` or `name` is written as
`""`. The handler's tests (`!== 'file'`, `!file.name`) treat all three alike.

Two behaviours of the code worth noting; the model follows the code:

- A body that is not an array makes the handler throw inside its `try` block.
  So the reply carries `details` as well as `error`, not `error` alone.
- The date is read once per record, not once per reply. So records of one reply
  have equal dates only when the clock does not change between reads
  (`Media.ListMediaOneDate`).

## Model

| member | source | states |
|---|---|---|
| `Ascii.ToLower` | get-files.js:55 | keeps the length, leaves no upper-case letter, leaves every other character unchanged, and shifts `A`..`Z` down to `a`..`z` |
| `Ascii.ToLowerIdempotent` | get-files.js:55 | lower-casing an already lower-cased string changes nothing |
| `Ascii.LowerCharKeepsNonLetter` | get-files.js:55 | a character is the dot after lower-casing exactly when it was the dot before, so lower-casing never moves the split points |
| `StringSplit.Split` | get-files.js:55 | at least one piece; no piece contains the separator; a string without the separator is one piece; a string with it gives at least two pieces |
| `StringSplit.JoinSplit` | get-files.js:55 | joining the pieces with the separator gives back the original name |
| `StringSplit.SplitJoin` | get-files.js:55 | splitting a join of separator-free pieces gives back those pieces |
| `StringSplit.SplitAfterPiece` | get-files.js:55 | a separator-free piece followed by the separator splits off as the first piece |
| `StringSplit.LastPiece` | get-files.js:55 | the popped piece holds no separator; it is the whole string when the string has no separator, and strictly shorter otherwise |
| `StringSplit.LastPieceIsSuffix` | get-files.js:55 | the popped piece is the longest separator-free suffix: it is preceded by the separator unless it is the whole string |
| `StringSplit.LastPieceUnique` | get-files.js:55 | any longest separator-free suffix is the popped piece |
| `Decimal.Show` | get-files.js:38 | the status text is non-empty, all digits, and has no leading zero unless the status is 0 |
| `Decimal.ValueOfShow` | get-files.js:38 | reading the digits back gives the status |
| `Decimal.ShowInjective` | get-files.js:38 | different statuses give different texts |
| `Media.Extension` | get-files.js:55 | the extension has no dot, has no upper-case letter, and is no longer than the name |
| `Media.ExtensionIsLoweredSuffix` | get-files.js:55 | the extension is the lower-cased text after the last dot, or the whole lower-cased name when there is no dot |
| `Media.ExtensionWithoutDot` | get-files.js:55 | a name without a dot has its whole lower-cased self as extension |
| `Media.ExtensionAfterTrailingDot` | get-files.js:55-56 | a name ending in a dot has the empty extension, which is not allowed |
| `Media.ExtensionIgnoresCase` | get-files.js:55 | lower-casing the name first gives the same extension |
| `Media.ExtensionCaseInsensitive` | get-files.js:55 | names equal up to case have equal extensions |
| `Media.IsMediaFileIgnoresCase` | get-files.js:51-57 | the filter keeps an entry exactly when it keeps the same entry with its name in any other case |
| `Media.ExtensionSetsDisjoint` | get-files.js:18-20 | the video and image sets share no extension, the allow-list is their union, and it holds 12 extensions |
| `Media.AllowedExtReachable` | get-files.js:18-20 | every allowed extension is what `Extension` returns for a name ending in a dot and that extension |
| `Media.Classify` | get-files.js:59-60 | `video` exactly for the video extensions; for an allowed extension, `image` exactly for the image extensions |
| `Media.IsMediaFile` | get-files.js:52-56 | an entry that passes is a file whose extension, three or four letters long, is in exactly one of the video and image sets |
| `Media.OutsideAllowListDropped` | get-files.js:55-56 | an entry whose extension is not on the allow-list does not pass |
| `Media.ToItem` | get-files.js:58-70 | the record copies `sha`, `download_url`, `name`, `path`, `size` to `id`, `url`, `title`, `path`, `size`, carries the given date, is `video` exactly for a video extension and, for a media file, `image` exactly for an image extension |
| `Media.Filter` | get-files.js:50-57 | never longer than the listing; an entry is kept exactly when it is in the listing and is a file with a non-empty name and an allowed extension |
| `Media.FilterAppend` | get-files.js:50-57 | filtering a concatenation is concatenating the filtered parts, so listing order is kept |
| `Media.FilterSingle` | get-files.js:51-57 | one entry passes exactly when it is a media file |
| `Media.FilterIdempotent` | get-files.js:50-57 | filtering the survivors again keeps all of them |
| `Media.NonFilesDropped` | get-files.js:52-54 | an entry that is not a file, or has no name, is never kept |
| `Media.FilterPosition` | get-files.js:50-57 | a media file lands among the survivors at the position given by the count of media files before it |
| `Media.PositionIncreases` | get-files.js:50-57 | a later media file lands at a later position than an earlier one |
| `Media.ListMedia` | get-files.js:50-71 | no more records than entries; none from an empty listing; every record has a non-empty title with an allowed extension, is `video` exactly for a video extension and `image` exactly for an image extension, carries the date read for its position, and copies `sha`, `download_url`, `name`, `path`, `size` of some media file of the listing |
| `Media.ListMediaComplete` | get-files.js:50-71 | every media file of the listing has its record in the output, at its position, with its fields copied |
| `Media.ListMediaAppend` | get-files.js:50-71 | the output for a concatenated listing is the output for each part, with the clock continuing across |
| `Media.MapItems` | get-files.js:58-71 | one record per survivor, in order, each copying its survivor's fields, carrying the date read for its position, and `video` exactly for a video extension |
| `Media.MapItemsAppend` | get-files.js:58-71 | mapping a concatenation maps each part, with the clock continuing across |
| `Media.ListMediaOneDate` | get-files.js:68 | with a clock that shows one date, every record carries that date |
| `Media.ExampleExtensions` | get-files.js:55 | `a.MP4` has extension `mp4` and `b.txt` has extension `txt` |
| `Media.ExampleVideoKept` | get-files.js:51-57 | the file `a.MP4` passes the filter despite its upper-case extension |
| `Media.ExampleTextDropped` | get-files.js:51-57 | the file `b.txt` does not pass the filter |
| `Media.ExampleVerdicts` | get-files.js:51-57 | of `a.MP4`, the directory `sub` and `b.txt`, only `a.MP4` passes |
| `Media.FilterThree` | get-files.js:50-57 | three entries are filtered one by one, in order |
| `Media.ExampleFilter` | get-files.js:50-57 | the listing `a.MP4`, `sub`, `b.txt` filters down to `a.MP4` alone |
| `Media.ExampleListing` | get-files.js:50-71 | that listing yields exactly one record: a video with id `s1`, url `u1`, title `a.MP4`, path `p1`, size 10 |
| `Handler.StatusMessage` | get-files.js:38 | the error message for a failed status contains the status digits and the status text |
| `Handler.IsOk` | get-files.js:35 | `ok` holds exactly for the 2xx statuses |
| `Handler.ReadListing` | get-files.js:35-45 | a listing exactly when the status is in 200..299 and the body is an array, and then that array; a failed status throws the status message, which names the status digits and the status text; an ok non-array body throws the unexpected-response message; a parse failure or a failed request keeps its own message |
| `Handler.Handle` | get-files.js:11-86 | a request is made exactly when a token is set; the status is 200 or 500; 200 exactly when a token is set, the upstream status is ok and the body is an array, and then the reply is the transformed list with the two cache headers; a 500 carries an error and no media list; a missing token gives the missing-token message; every other 500 carries the message thrown by the upstream checks as `error` and the permissions hint as `details` |
| `Handler.MissingTokenIgnoresUpstream` | get-files.js:11-15 | without a token the reply is the same whatever the upstream would have answered, no request is made, and the status is 500 |
| `Handler.NotFoundReported` | get-files.js:35-38 | an upstream 404 gives a 500 whose error message contains `404` |
| `Handler.FailedStatusReported` | get-files.js:35-38 | any failed status with a token set gives a 500 whose error is the status message, naming the status digits and the status text, with the permissions hint |
| `Handler.NonArrayRejected` | get-files.js:35-45 | a body that is not an array gives a 500 whatever the status |
| `Handler.EmptyListingSucceeds` | get-files.js:50-79 | an empty listing with an ok status gives 200 with an empty list and the cache headers |
| `Handler.TokenValueIrrelevant` | get-files.js:11-15 | any two set tokens give the same reply |

## Left out

- The outbound request is not modelled (lines 23-33): the URL, the
  `Authorization`, `Accept` and `User-Agent` headers, and the fixed
  owner/repository/path. Its result is an input.
- Reading `GITHUB_TOKEN` from the environment (line 9) is not modelled. The
  token is a parameter.
- `response.json()` and `response.text()` are not modelled, nor the
  `async`/`await` flow. The parsed body arrives classified as an array, other
  JSON, or invalid JSON with its parser message. A failure inside
  `response.text()` on the error path is not modelled.
- Logging (`console.log`, `console.error`) is not modelled; it has no effect on
  the reply.
- `new Date().toISOString().split('T')[0]` is a wall-clock read and ISO
  formatting. The `clock` parameter replaces it and its text is opaque.
- `res.setHeader`, `res.status` and `res.json` are side effects on the response
  object. They are modelled as the `Reply` value. Headers the hosting platform
  adds by itself to error replies are not modelled.
- Ascii.ToLower: lower-cases only `A`..`Z`, weaker than JavaScript's full
  Unicode `toLowerCase`. Every allowed extension is plain ASCII, but a name
  whose extension lower-cases to one only under Unicode rules is outside the
  model.
- Media.Entry: every listing element is a record with string fields. Two cases
  where the code throws into its `catch` block and replies 500 are not
  modelled: a `null` element (at `file.type`) and a truthy non-string `name`
  (at `split`).
- Handler.Upstream: the status is a natural number. Fractional or negative
  statuses cannot come from the Fetch API.
