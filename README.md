# RSS-to-Discord relay: a Dafny model

The relay polls an RSS or Atom feed and, on each poll, posts at most one item
to a Discord webhook. It keeps a watermark, `lastpost`: the ISO timestamp of
the last item it handled. Each cycle works like this:

- It scans the feed's items from the oldest to the newest and takes the first
  one strictly later than the watermark.
- It builds a title, an embed description and an image from the item.
- It sends one JSON request.
- When the request resolves, with any HTTP status, it moves the watermark to
  the item's timestamp.

The model covers that cycle in seven modules:

- `Js`: the parts of JavaScript string semantics the code relies on. These
  are the `\s` character class and `trim`, `split`/`join` on one character,
  counting a character, and string `<`.
- `Config`: the optional settings read from the environment (`Settings`).
  Each one is `Option<string>`, where `None` means undefined.
- `Feed`: items, and the rule that decides which item is new and which one is
  selected.
- `Summary`: the summary text. It models the emphasis replace, truncation to
  `800 - url.length`, dropping the last word, collapsing newline runs and
  closing an unpaired `*`. `Summarize` builds the summary step by step in one
  variable, as the code does.
- `Images`: the image pick from the first `<img>`, from its `srcset` when
  that is set and from its `src` otherwise.
- `Webhook`: the title, the description and the request body. `BuildPayload`
  builds the body step by step. `Payload` states the result.
- `Poller`: the class `Poller`, whose field `lastpost` is the watermark. It
  has the loop `GetNextItem` and the cycle `CheckFeed`.

Behaviour of the code worth knowing:

- **Summary length.** The summary is cut to `800 - url.length` characters
  before newline runs are collapsed. Collapsing turns each single `\n` into
  two, so the summary sent can be longer than that budget
  (`CollapseCanExceedBudget`). The proved bound is twice the budget plus one
  (`SummaryShape`).
- **Last word.** The last space-separated word is dropped even when nothing
  was cut (`LastWordDroppedWhenShort`).
- **One image.** Only the first `<img>` of the body is used. The description
  is sent even when an image is attached.
- **Rejected requests.** The code has no rejection handler, so a webhook
  request that is rejected (a network failure, not an HTTP error status)
  never reaches the line that moves the watermark. On Node 15 and later an
  unhandled rejection ends the process by default; the model treats the
  rejection as a cycle that changes nothing. A request that resolves moves
  the watermark whatever its status.
- **Items without a body.** When the selected item has no
  `content:encoded`, `raw.replace` throws before any request is sent, so the
  watermark stays where it was. The throw happens inside the feed promise's
  callback and nothing catches it, so on Node 15 and later it is an
  unhandled rejection that ends the process. The model treats it as a cycle
  that sends nothing (`CycleSendsSelected`, `CheckFeed`). Under that
  treatment every later cycle selects the same item again until that item
  leaves the feed, and nothing newer is posted in the meantime.
- **Tied timestamps.** An item is new only when its timestamp is strictly
  later than the watermark. When several items share a timestamp, the last
  listed of them is posted, the watermark moves to that timestamp, and the
  others are never selected afterwards (`NextCycleSkipsTies`,
  `PassedOverStaysOld`, `TiedItemNeverSelected`).
- **Fractional densities.** A `srcset` whose last candidate has a density
  whose integer part is a single digit, such as `1.5x`, is not stripped by
  the descriptor pattern. The descriptor is then sent as the image URL
  (`FractionalDensityPicksDescriptor`). With two or more digits before the
  dot, the pattern removes the space and those digits only, so
  `a.jpg 10.5x` gives `a.jpg.5x` (`MultiDigitFraction`,
  `MultiDigitFractionExample`).
- **URLs starting with digits.** The descriptor pattern `\s+(\d+[\w,]+)`
  also matches the space before a later candidate's URL when that URL starts
  with a digit followed by at least one more `[\w,]` character. It then
  removes the space and the URL's whole leading `[\w,]` run, digits and
  letters alike (`12ab.jpg` loses `12ab`; `1.jpg` keeps its `1`), which
  glues the rest of that URL to the one before it: `a.jpg 1x, 960.jpg 2x`
  gives `a.jpg.jpg` (`LeadingDigitsMerge`, `LeadingDigitsExample`). The
  srcset lemmas that give the last candidate's URL assume URLs that do not
  start with a digit.
- **Commas without a space.** The `[\w,]` run of a descriptor goes on
  through a comma that is not followed by white space, into the next URL, as
  far as that URL's first character outside `[\w,]`. All of it is removed,
  so `a.jpg 480w,b.jpg 960w` gives `a.jpg.jpg` (`CommaWithoutSpaceMerge`,
  `CommaWithoutSpaceExample`). The srcset lemmas that give the last
  candidate's URL assume `, ` between candidates.
- **Missing footer text.** `footer.text` is missing from the JSON when
  FOOTER_TEXT is unset and the item has no creator.

## Model

| member | source | states |
|---|---|---|
| Js.SpaceRun | index.js:83 | the run of leading white space that `trim` removes: all white space, maximal |
| Js.Truthy | index.js:28-33 | definition: a value counts as set when it is defined and not the empty string |
| Js.TrailRun | index.js:83 | the run of trailing white space that `trim` removes: all white space, maximal |
| Js.TrimInfix | index.js:83 | `trim` gives the infix of `s` after its leading white space, and neither end of it is white space |
| Js.Trim | index.js:83 | `trim` never lengthens a string; what it removes is stated by `TrimInfix` and `TrimShape` |
| Js.TrimShape | index.js:83 | `trim` removes only white space, from both ends, and keeps everything between |
| Js.TrimIdempotent | index.js:82-83 | trimming twice gives the same result as trimming once |
| Js.CountTrim | index.js:87-88 | trimming never changes the number of a character that is not white space, such as `*` |
| Js.Count | index.js:87 | the number of occurrences of a character, at most the length of the string |
| Js.Split | index.js:83 | `split(' ')` gives at least one piece, no piece holds a space, and it gives a single piece exactly when there is no space |
| Js.JoinSplit | index.js:83-85 | `join(' ')` after `split(' ')` gives back the string |
| Js.SplitJoin | index.js:83-85 | splitting pieces joined by a separator they lack gives back the pieces |
| Js.Join | index.js:85 | definition of `join` on one character; `JoinSplit` and `SplitJoin` tie it to `Split` |
| Js.Less | index.js:57 | definition of string `<`; the following lemmas show it is a strict total order |
| Js.LessIrreflexive | index.js:57 | no timestamp is later than itself |
| Js.LessTransitive | index.js:57 | string `<` is transitive |
| Js.LessTotal | index.js:57 | two different timestamps are ordered one way or the other |
| Js.LessAtFirstDifference | index.js:57 | strings are ordered by their first differing character |
| Feed.LastNewIndex | index.js:53-64 | the backwards scan stops at the highest index holding an item strictly later than the watermark, and no later index holds one; -1 when none does |
| Feed.IsNew | index.js:57 | definition: an item is new when its timestamp is strictly later than the watermark |
| Feed.Selected | index.js:53-64 | a selected item is one of the feed's items and is new |
| Feed.SelectedIsNew | index.js:53-64 | nothing is selected exactly when no item is strictly later than the watermark, and a selected item always is |
| Feed.SelectedIsOldestNew | index.js:53-64 | in a newest-first feed, the selected item is not newer than any other new item |
| Feed.NextCycleSelectsNextNewer | index.js:53-64 | in a feed without tied timestamps, after the watermark moves to the selected item's timestamp, the next cycle selects the next newer item, or nothing after the newest |
| Feed.NextCycleSkipsTies | index.js:53-64 | in any newest-first feed, after the watermark moves to the selected item's timestamp, the next cycle selects an earlier-listed item with a different timestamp, or nothing, and every item listed between the two shares the posted timestamp |
| Feed.PassedOverStaysOld | index.js:57 | an item whose timestamp equals the watermark is not new under that watermark or any later one |
| Feed.TiedItemNeverSelected | index.js:53-64 | items of 3, 2 and 2 January with watermark 1 January: the third is selected, then the first, then none; the second never is |
| Feed.CaughtUpSelectsNothing | index.js:53-64 | with the watermark at the newest item's timestamp, nothing is selected |
| Feed.SelectsOldestOfTwo | index.js:53-64 | with watermark 2023-01-01 and items of 3 and 2 January, the item of 2 January is selected |
| Poller.Poller.constructor | index.js:14 | the watermark is the stored value when it is non-empty, the start time otherwise |
| Poller.Poller.GetNextItem | index.js:53-64 | the loop returns the selected item: the last-listed item strictly later than the watermark, or none |
| Poller.Poller.Resolved | index.js:44-46 | a resolved request sets the watermark to the posted item's timestamp |
| Poller.Poller.CheckFeed | index.js:67-96 | the body sent is the one `CycleBody` gives for the old watermark; the watermark moves to the selected item's timestamp only when a request was sent and resolved; the watermark never moves backwards |
| Poller.PostFor | index.js:73-94 | definition of the values handed to `postToWebhook` for an item; their properties are the lemmas of `Webhook`, `Summary` and `Images` |
| Poller.CycleBody | index.js:67-96 | definition of the request body a cycle sends; `CycleSendsSelected` states when there is one and what it carries |
| Poller.CycleSendsSelected | index.js:67-96 | a request is sent exactly when an item is new and has a body; it is strictly newer than the watermark; the request carries one embed with that item's link and timestamp |
| Webhook.FullTitle | index.js:75-78 | the title always ends with the item title |
| Webhook.FullTitleVerbatim | index.js:75-78 | the title is the item title exactly when PREPEND is unset; otherwise a space precedes the item title |
| Webhook.FullTitlePrefix | index.js:75-78 | with PREPEND `{FEEDTITLE}` the title is exactly the feed title, ` — ` and the item title; with any other set value it is exactly that value, one space and the item title |
| Webhook.ContinueLink | index.js:21 | definition of the bold `Continue reading →` link to the item |
| Webhook.Description | index.js:21 | an empty summary gives only the continue link; otherwise the summary comes first, then ` ...\n`; the description always ends with the continue link |
| Webhook.DescriptionInjective | index.js:21 | two summaries with the same description for the same link are equal |
| Webhook.SetIfTruthy | index.js:28-33 | the key is added, with the value, exactly when the value is set; all other keys are kept |
| Webhook.FooterText | index.js:23 | definition of `FOOTER_TEXT \|\| creator`; `FooterTextFallback` states its cases |
| Webhook.Footer | index.js:22-31 | definition of the footer object; `FooterKeys` and `FooterTextFallback` state its keys and text |
| Webhook.Embed | index.js:17-33 | definition of the embed object; `EmbedKeys` and `EmbedValues` state its keys and values |
| Webhook.Options | index.js:27-30 | definition of the options object; `PayloadKeys` states its keys |
| Webhook.Payload | index.js:42 | definition of `{ ...options, embeds: [embed] }`; `PayloadKeys` and `PayloadEmbed` state its shape |
| Webhook.BuildPayload | index.js:16-42 | the body built step by step equals `{ ...options, embeds: [embed] }` |
| Webhook.PayloadKeys | index.js:27-42 | the body's keys are `embeds` plus `username`, `avatar_url` and `content`, each exactly when its setting is set |
| Webhook.EmbedKeys | index.js:17-33 | the embed has `url`, `timestamp`, `title`, `description` and `footer`; it has `color` exactly when COLOR is set and `image` exactly when there is an image |
| Webhook.FooterKeys | index.js:22-31 | the footer has `text` exactly when FOOTER_TEXT or the creator is defined, and `icon_url` exactly when FOOTER_ICON is set |
| Webhook.FooterTextFallback | index.js:23 | the footer text is FOOTER_TEXT when set, the creator otherwise, and absent when neither is defined |
| Webhook.PayloadEmbed | index.js:42 | the body holds exactly one embed, whose `url` and `timestamp` are the post's |
| Webhook.EmbedValues | index.js:17-33 | the embed carries the item's link, timestamp, title and description, and `{ url: image }` when an image is set |
| Summary.OpenTagLen | index.js:80 | the opening tag matched is 3 or 4 characters long and starts with `<` |
| Summary.CloseTagLen | index.js:80 | the closing tag matched is 4 or 5 characters long and starts with `<` |
| Summary.MatchLen | index.js:80 | the match at the start stays within the string; its length on tags is stated by `OpenTagMatch` and `CloseTagMatch` |
| Summary.Emphasize | index.js:80 | the replace never lengthens the body; what it does is stated by the lemmas below |
| Summary.NoMatchInText | index.js:80 | no match starts inside text in which no tag starts, unless its trailing white space is followed by a closing tag |
| Summary.EmphasizeUnmatched | index.js:80 | where no match starts in the first `n` positions, the replace keeps those `n` characters |
| Summary.NoAngleNoTag | index.js:80 | text without `<` holds no tag |
| Summary.EmphasizeOpenTag | index.js:80 | `<em>` or `<i>` and all the white space after it become one `*` |
| Summary.EmphasizeCloseTag | index.js:80 | all the white space before `</em>` or `</i>`, and the tag, become one `*` |
| Summary.EmphasizeText | index.js:80 | text in which no emphasis tag starts, other tags included, passes through the replace unchanged, unless its trailing white space is followed by a closing tag |
| Summary.EmphasizeNoTags | index.js:80 | a body in which no emphasis tag starts is left as it is |
| Summary.EmphasizeWord | index.js:80 | an emphasised word becomes `*word*`, whatever white space surrounds it inside the tags and whatever other tags precede it |
| Summary.EmphasizeParagraph | index.js:80 | `<p>x <em> y </em></p>` becomes `<p>x *y*</p>` |
| Summary.Budget | index.js:83 | the budget is `800 - url.length` when the link fits in 800 characters, and 0 when it does not |
| Summary.Cut | index.js:83 | `substr(0, n)` is the prefix of length `min(n, length)` |
| Summary.DropLastWord | index.js:83-85 | definition of `split(' ')`, `pop()`, `join(' ')`; `DropLastWordShape` states its result |
| Summary.Truncate | index.js:83-85 | definition of the cut, trim and last-word drop; `TruncateWithinBudget` states its result |
| Summary.DropLastWordShape | index.js:83-85 | dropping the last word gives the text up to its last space, or "" when there is no space |
| Summary.TruncateWithinBudget | index.js:83-85 | before the collapse, the summary is a prefix of the trimmed cut text, fits the budget, and ends where a space follows |
| Summary.LastWordDroppedWhenShort | index.js:83-85 | the last word is dropped even when the whole text fits |
| Summary.NewlineRun | index.js:85 | the length of the maximal run of `\n` at the start |
| Summary.Collapse | index.js:85 | the replace is empty exactly when its input is, and starts with `\n` exactly when its input does |
| Summary.CollapseIsCollapsed | index.js:85 | after the replace, every maximal run of `\n` has length exactly two |
| Summary.CollapsedIsFixed | index.js:85 | the replace leaves a collapsed string unchanged |
| Summary.CollapseFixedPoints | index.js:85 | the replace leaves a string unchanged exactly when the string is collapsed |
| Summary.CollapseIdempotent | index.js:85 | replacing twice gives the same result as replacing once |
| Summary.CountCollapse | index.js:85-88 | the replace keeps every `*` |
| Summary.DropNewlines | index.js:85 | the string with every `\n` removed, never longer and holding no `\n` |
| Summary.CollapseKeepsText | index.js:85 | the replace changes only newlines: every other character survives, in order |
| Summary.Squeeze | index.js:85 | the string with each maximal run of `\n` shortened to one `\n`: never longer, empty only when the input is, same first character |
| Summary.CollapseSqueeze | index.js:85 | the replace keeps each run of `\n` where it was and adds none: input and output agree once runs are shortened to one |
| Summary.CollapsedBySqueeze | index.js:85 | two collapsed strings whose runs of `\n` sit in the same places are equal |
| Summary.CollapseCharacterised | index.js:85 | a string is the replace's result exactly when every run of `\n` in it has length two and its runs sit where the input's do |
| Summary.CollapseLength | index.js:85 | each lone `\n` adds one character |
| Summary.CollapseCanExceedBudget | index.js:83-85 | a text that fits the budget comes out longer by its number of newlines, so it can exceed the budget |
| Summary.RepairStars | index.js:87-88 | definition of the star repair; `RepairStarsEven` states its result |
| Summary.RepairStarsEven | index.js:87-88 | after the repair the number of `*` is even; an even count is left alone |
| Summary.ClosingStarCount | index.js:88 | trimming and adding `*` adds exactly one `*` |
| Summary.Extracted | index.js:80-82 | definition of the text after the emphasis replace, `$.text()` and the optional TRIM_REGEX cut and trim |
| Summary.SummaryText | index.js:80-88 | definition of the whole summary pipeline; `Summarize` and `SummaryShape` state its properties |
| Summary.RepairKeepsNoTriple | index.js:85-88 | the repair never creates three newlines in a row |
| Summary.Summarize | index.js:80-88 | the summary built step by step equals `SummaryText`, and its number of `*` is even |
| Summary.SummaryShape | index.js:80-88 | every summary has an even number of `*`, is at most twice the budget plus one long, and never has three newlines in a row |
| Images.Attr | index.js:90-92 | an attribute is defined exactly when it is present, with its value |
| Images.WordRun | index.js:91 | the maximal run of `[\w,]` characters at the start |
| Images.DescriptorMatch | index.js:91 | a match of the descriptor pattern starts with white space and stays within the string |
| Images.StripDescriptors | index.js:91 | the global replace of the descriptor pattern never lengthens the string; `StripSrcset`, `FractionKept` and `LeadingDigitsMerge` state what it does |
| Images.TrailWord | index.js:91 | the length of the last token, at most the length of the string |
| Images.LastToken | index.js:91 | definition of `split(/\s+/).pop()`; `LastTokenShape` states its result |
| Images.LastTokenShape | index.js:91 | `split(/\s+/).pop()` is the whole last token: a suffix without white space, preceded by white space or the start |
| Images.PickImage | index.js:90-92 | no `<img>` gives no image; a set `srcset` gives a URL without white space; otherwise the image is `src` |
| Images.StripSrcset | index.js:91 | removing the descriptors of a well-formed `srcset` leaves the URLs joined by spaces |
| Images.LastTokenOfJoin | index.js:91 | the last token of words joined by spaces is the last word |
| Images.LastUrlOfSrcset | index.js:91 | stripping descriptors and taking the last token of a well-formed `srcset` gives the last candidate's URL |
| Images.PickImageFromSrcset | index.js:90-92 | with a well-formed `srcset`, the image is the last candidate's URL |
| Images.FractionKept | index.js:91 | a density whose integer part is a single digit, followed by a dot, is not removed |
| Images.FractionalDensityPicksDescriptor | index.js:90-92 | when the last candidate's density has a single-digit integer part and a fractional part, the descriptor itself is sent as the image URL |
| Images.MultiDigitFraction | index.js:90-92 | when the last candidate's density has two or more digits before the dot, the space and those digits are removed and the image is the URL glued to the rest of the density |
| Images.MultiDigitFractionExample | index.js:90-92 | `a.jpg 10.5x` gives `a.jpg.5x` |
| Images.PickImageExample | index.js:90-92 | `a.jpg 480w, b.jpg 960w` gives `b.jpg` |
| Images.LeadingDigitsMerge | index.js:90-92 | a later candidate URL that starts with at least two digits followed by a character outside `[\w,]` loses those digits with the space before it, and the rest of it is glued to the URL before it |
| Images.CommaWithoutSpaceMerge | index.js:90-92 | after a comma with no space, the next URL's leading `[\w,]` run is removed with the descriptor, and the rest of that URL is glued to the URL before it |
| Images.CommaWithoutSpaceExample | index.js:90-92 | `a.jpg 480w,b.jpg 960w` gives `a.jpg.jpg` |
| Images.LeadingDigitsExample | index.js:90-92 | `a.jpg 1x, 960.jpg 2x` gives `a.jpg.jpg` |

## Left out

- Start-up configuration (lines 1-13): loading `.env`, the check for FEED and WEBHOOK, `process.exit`, and the log lines. Settings enter as a `Settings` value.
- Reading and writing the `lastpost` file: the constructor takes the file's contents and the start time as parameters, and the file write on resolve is not modelled. When the file is missing, `readFileSync` throws and the relay stops at start-up; the `||` fallback to the start time covers only an empty file.
- Fetching and parsing the feed (`parser.parseURL`): `CheckFeed` takes the parsed feed. A failed fetch or parse is a rejection that nothing handles; on Node 15 and later it ends the process. The model treats it as a cycle that does not happen, leaving the watermark unchanged.
- The HTTP request: `CheckFeed` takes whether the request resolves. Status codes, headers and logging are not modelled. A rejected request is an unhandled rejection, which on Node 15 and later ends the process; the model treats it as a cycle that changes nothing.
- Scheduling (`setInterval`, lines 98-99) and cycles that overlap while a request is in flight are not modelled: each cycle runs to completion.
- Timestamps: `new Date(isoDate).toISOString()` is assumed already applied to each item's `isoDate`. An unparsable date, which throws there, is not modelled.
- HTML parsing: `$.text()` is the function parameter `text`, and the attributes of `$('img').first()` come from the function parameter `firstImg`, applied to the body after the emphasis replace.
- TRIM_REGEX: its first-match removal is the function parameter `trimCut`. Only the `trim` after it is modelled.
- JSON text: the body is a JSON value with keys whose value is undefined already dropped. Key order and escaping are not modelled.
- Characters: strings are sequences of `char` (Unicode scalar values), so lengths in `substr` and `url.length` count characters rather than UTF-16 code units, and string `<` orders characters above U+FFFF by their value rather than by their UTF-16 surrogates.
- Undefined `title`, `link` or feed title are not modelled; these fields are strings. In the code an undefined `link` throws at `url.length` before any request is sent. An undefined `title` with PREPEND unset leaves `title` out of the embed's JSON. With PREPEND set, the template string renders an undefined `title` or feed title as `undefined`.
- Summary.Collapse: its contract states only emptiness and the first character; its result is pinned down by `CollapseCharacterised` (every run of `\n` has length two, and the runs sit where the input's do).
- Images.DescriptorMatch: its contract states only where a match starts and that it stays in bounds; its effect on well-formed values is stated by `StripSrcset` and `FractionKept`.
