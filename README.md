# Content loader, modelled in Dafny

This project models the content loader of the Swift package `Content`. The
package holds the loader twice: `Staticman` in `Sources/Staticman/Staticman.swift`,
and `Content` with `ContentUtils` in `Sources/Content/`. The pipeline is the same
in both:

1. `getContentFiles` lists a directory and keeps the names ending in `.md`.
2. `parseContentFiles` reads each file. It takes the YAML header with the regex
   `(?s)(?<=---\n).*(?=\n---)` and the markdown body with `(?s)(?<=\n---).*`.
   It loads the header with Yams, renders the body with `markdownToHTML`, and
   keeps one `["yaml": …, "entry": …]` entry per file that has a header.
3. `sortContentByDateDesc` sorts the entries by their `date`, newest first.
4. `getItems` builds one `ContentItem` per entry (title, status, slug, entry). Its
   `date` field holds the relative time ("3 days ago") from `relativeTime`.
5. `getItem(slug:)` returns the last item with that slug.
6. `randomItem(exceptWithSlug:)` picks an item at random. With a slug given, it
   picks among items that have another slug and are not `"private"`.

One model covers both copies.

- `wrappers.dfy` (`Wrappers`): `Option` and `Result`.
- `text.dfy` (`Text`): substring search, `hasSuffix`, and Swift's `String(Int)`
  with a parser that reads it back.
- `seqs.dfy` (`Seqs`): order-preserving filtering. This is the shape of the loops
  that append to `markdownFiles` and `itemsWithoutException`.
- `time_ago.dfy` (`TimeAgo`): `sStrOptional` and `relativeTime`, with Swift's
  truncating `/` written out as `Quot`. It also holds a reference table of the
  buckets (`InBucket`, `UnitMillis`, `UnitName`, `UnitLabel`) and a parser (`ParseAge`) that
  reads the output back.
- `sections.dfy` (`Sections`): both regexes, written as explicit substring
  search. Each is proved to report the span a regex engine reports: the
  leftmost start, then the longest match.
- `content.dfy` (`Content`): the pipeline. Each loop in the source is a method
  with a `while`/`for` loop, proved against a specification function
  (`Filter`, `ParseAll`, `Listing`) or against the property itself.

Foreign and environment inputs are parameters:

- The directory is its listing. Each entry is a `File(name, text)` that already
  holds the file's text.
- `Yams.load` and `markdownToHTML` are the two fields of `Tools`. Both are
  functions that may fail, as the Swift calls may throw.
- The clock is an integer `now` in milliseconds. Dates are integer milliseconds
  (`Timestamp`) in the YAML value type.

Traps become explicit results or preconditions:

- A failed `as!` cast is excluded by a precondition. `Loadable` requires every
  parsed entry to have string `title`, `status` and `slug` and a `date`.
  `SortContentByDateDesc` requires dates only when it has two or more entries,
  because only then is its comparator called.
- The nil `getItem` result is the error `NotFound`.
- `randomElement()!` on an empty list is the error `NoCandidates`.
- A throw from Yams or the renderer aborts the whole load (`try`). It is
  returned as `YamlError` or `MarkdownError`.

Behaviour of the code worth noting:

- The header runs to the last `"\n---"` at or after the opening, not to the
  next one, because `.*` is greedy. A horizontal rule in the body therefore ends
  up in the header (`Sections.GreedyHeaderSwallowsRule`).
- The body starts after the first `"\n---"` anywhere in the file.
- `getItem` keeps scanning after a match, so it returns the last match.
- Swift's `sorted(by:)` is not guaranteed to be stable. The model's sort
  (`Insert`) is: entries with equal dates keep their file order. Only
  `GetItems` and `GetItem` inherit that tie order; every other result holds for
  any newest-first order.
- A file without a header span is skipped. A header that Yams cannot parse
  aborts the whole load. A header that loads to something other than a mapping
  becomes the empty map.

`Content.swift` does not compile as written:

- Line 64 returns the whole list where one item is expected.
- Line 160 calls `Utils()`, but the class is `ContentUtils`.

The model gives `Content` the `Staticman` behaviour. The relative time comes
from `ContentUtils.relativeTime`, which is identical to `Staticman.relativeTime`.
The public wrappers `items()` and `item(slug:)` only add `try!`. In this model
that is `GetItems` and `GetItem` returning their error.

## Model

| member | source | states |
|---|---|---|
| `TimeAgo.SStrOptional` | Sources/Content/ContentUtils.swift:6-16 | the suffix is "s" exactly when n > 1 and "" exactly when n <= 1, so counts of 0, 1 and below stay singular |
| `TimeAgo.Quot` | Sources/Content/ContentUtils.swift:38-39 | Swift's Int `/` truncates toward zero: for a >= 0, 0 <= q and q*b <= a < q*b + b; for a < 0, q <= 0 and q*b - b < a <= q*b |
| `TimeAgo.BucketsPartition` | Sources/Content/ContentUtils.swift:30-36 | the bucket ranges (below 1 min; 1 min to 1 h; 1 h to 1 day; 1 to 30 days; 30 to 365 days) cover every difference below a year exactly once |
| `TimeAgo.RelativeTimeIsPhrase` | Sources/Content/ContentUtils.swift:25-77 | a difference in a bucket gives decimal(d / unit) + " " + unit name + sStrOptional(d / unit) + " ago", with the truncated quotient; from 365 days on, exactly "Years" |
| `TimeAgo.PhraseIsNotYears` | Sources/Content/ContentUtils.swift:71-73 | no counted phrase equals the label "Years", so the two kinds of output cannot be confused |
| `TimeAgo.ParsePhrase` | Sources/Content/ContentUtils.swift:41-69 | every phrase "count unit[s] ago" and "Years" is read back by ParseAge to the count and unit it states |
| `TimeAgo.ParseRelativeTime` | Sources/Staticman/Staticman.swift:211-263 | reading relativeTime's output back gives the truncated count and unit of the bucket the difference falls in, or Years from a year on |
| `TimeAgo.PluralOnlyAboveOne` | Sources/Staticman/Staticman.swift:192-202 | a phrase ends in "s ago" if and only if its count is above one |
| `TimeAgo.CountBounds` | Sources/Content/ContentUtils.swift:30-69 | for a non-negative difference the count is 0-59 seconds, 1-59 minutes, 1-23 hours, 1-29 days or 1-12 months |
| `TimeAgo.FutureDate` | Sources/Content/ContentUtils.swift:36-41 | a date after the clock falls in the seconds bucket, with a truncated count <= 0 and no plural "s" |
| `TimeAgo.ShiftInvariant` | Sources/Content/ContentUtils.swift:27-29 | the output depends only on the difference between the clock and the date |
| `TimeAgo.NowIsZeroSeconds` | Sources/Content/ContentUtils.swift:36-41 | a date equal to the clock reads "0 second ago" |
| `TimeAgo.ThirtySeconds` | Sources/Staticman/Staticman.swift:222-227 | 30 000 ms reads "30 seconds ago" |
| `TimeAgo.OneMinute` | Sources/Staticman/Staticman.swift:229-234 | 60 000 ms reads "1 minute ago" |
| `TimeAgo.NinetyMinutes` | Sources/Staticman/Staticman.swift:236-241 | 90 minutes reads "1 hour ago" |
| `TimeAgo.FourHundredDays` | Sources/Staticman/Staticman.swift:257-259 | 400 days reads "Years" |
| `Text.DecimalRoundTrip` | Sources/Content/ContentUtils.swift:39 | the decimal text `String(n)` writes for a count (with "-" for negatives) reads back to n |
| `Sections.HeaderSpan` | Sources/Staticman/Staticman.swift:103-105 | the header span is the header regex's match, with the leftmost start and then the longest end; there is none exactly when no "\n---" starts at or after the end of the first "---\n" |
| `Sections.BodyStart` | Sources/Staticman/Staticman.swift:109-111 | the body starts just past the leftmost "\n---" anywhere in the file and runs to the end; there is none exactly when the file has no "\n---" |
| `Sections.HeaderImpliesBody` | Sources/Content/Content.swift:103-116 | a file with a header always has a body, starting no later than just past the header's closing "\n---", so the inner `if let` never drops a file |
| `Sections.SplitWellFormed` | Sources/Content/Content.swift:103-111 | "---\n" + h + "\n---" + b with no other "\n---" splits into header h and body b |
| `Sections.AdjacentDelimitersGiveNoHeader` | Sources/Staticman/Staticman.swift:103 | "---\n---\nfoo" has no header span, because the second "---" line is not preceded by a newline past the opener |
| `Sections.GreedyHeaderSwallowsRule` | Sources/Content/Content.swift:103 | in "---\na: 1\n---\nx\n---\ny" the header is "a: 1\n---\nx": the greedy match runs to the last "\n---" |
| `Content.GetContentFiles` | Sources/Staticman/Staticman.swift:72-91 | the result is the listing filtered by "name ends in .md": a file is kept if and only if it is in the listing and is markdown |
| `Seqs.FilterPicks` | Sources/Staticman/Staticman.swift:72-91 | a filter keeps exactly the positions whose element passes, in increasing order, so the markdown files stay in listing order |
| `Content.YamlMap` | Sources/Staticman/Staticman.swift:106 | a loaded mapping is kept as it is; nil or any non-mapping YAML value becomes the empty map |
| `Content.ParseFile` | Sources/Staticman/Staticman.swift:100-118 | no item without a header span; with one, never a silent skip: either an item whose yaml is the loaded header (or the empty map) and whose entry is the rendered body, or the YAML or markdown error |
| `Content.ParseContentFiles` | Sources/Staticman/Staticman.swift:94-124 | the loop computes ParseAll: files in order, one item appended per parsed file, and the first throw aborts with its error |
| `Content.FailureIsFinal` | Sources/Content/Content.swift:98-120 | once a file's parse throws, the whole parse fails with that error whatever follows |
| `Content.ParseAllSucceeds` | Sources/Content/Content.swift:94-124 | the parse succeeds if and only if no file's YAML loader or markdown renderer throws |
| `Content.ParseAllOnePerHeader` | Sources/Content/Content.swift:94-124 | a successful parse holds exactly one item per file with a header span, in file order, each that file's parse |
| `Content.SortContentByDateDesc` | Sources/Staticman/Staticman.swift:127-143 | the result is a permutation of the input whose dates never increase |
| `Content.NewestFirstIsUnique` | Sources/Content/Content.swift:129-139 | with distinct dates, any two newest-first permutations of the same entries are equal, so the sort result is determined |
| `Content.ThreeEntries` | Sources/Content/Content.swift:127-143 | entries A (oldest), B and C (newest), in any order, sort to [C, B, A] |
| `Content.AssembleItems` | Sources/Staticman/Staticman.swift:151-165 | one item per sorted entry in the same order, copying title, status, slug and entry, with date set to the relative time of the entry's date |
| `Content.GetItems` | Sources/Content/Content.swift:146-169 | the result is the markdown files, parsed, sorted newest first and assembled, or the first parse error |
| `Content.ListingOnePerHeader` | Sources/Staticman/Staticman.swift:146-150 | listing succeeds if and only if no markdown file's parser or renderer throws, and then has as many items as markdown files with a header span |
| `Content.FindLastWithSlug` | Sources/Content/Content.swift:175-187 | found if and only if some item has the slug; the item found is the last with that slug; otherwise NotFound |
| `Content.GetItem` | Sources/Staticman/Staticman.swift:172-189 | the loading error, or the last listed item with the slug, or NotFound when no listed item has it |
| `Content.LastWithUniqueSlug` | Sources/Content/Content.swift:177-185 | when exactly one item has the slug, that item is the one found |
| `Content.PickRandom` | Sources/Content/Content.swift:46-60 | with a slug to except, the pick is a listed item with another slug that is not "private", and fails if and only if there is none; without one, any listed item, failing only on an empty list |
| `Content.RandomItem` | Sources/Staticman/Staticman.swift:42-66 | after loading, the pick is a listed item; with exceptWithSlug it never has that slug or status "private"; NoCandidates exactly when no item qualifies |

## Left out

- Filesystem I/O. `FileManager.contentsOfDirectory` and `String(contentsOfFile:)`
  are replaced by the listing given as `File` entries with their text. A
  directory that cannot be listed and a file that cannot be read are not
  modelled. The path `directory + filename` is plumbing.
- The Yams parser and the markdown renderer. They are the function parameters of
  `Tools`, and nothing is assumed about them.
- YAML floats and non-string mapping keys are not in the `Yaml` type. A mapping
  with non-string keys fails the `as? [String: Any]` cast in Swift and would be
  the empty map here.
- The clock, `Date()`, and `currentTimeMillis`, which converts a floating-point
  interval to `Int`. Dates and `now` are integer milliseconds. The sort compares
  these integers, where Swift compares `Date` values with sub-millisecond
  precision.
- Content.GetItems: entries with equal dates are listed in file order, because
  the model's sort is stable. Swift's `sorted(by:)` promises no order for ties.
- Content.GetItem: when two items share a slug and a date, the one it returns
  follows the stable tie order above. Swift may order such ties either way.
- Content.GetItems: it uses one `now` for the whole listing, where the source
  reads the clock again for every item.
- `Int` overflow of `currentTimestamp - timestamp`, which traps in Swift, is not
  modelled. Integers are unbounded.
- `toString(dateFormat:)` is never called, and `DateFormatter` is foreign.
- Content.PickRandom: it states only which item may be returned. The uniform
  distribution of `randomElement()` is not modelled.
- The `else` branch of `randomItem` in `Content.swift` (line 64) and the `Utils()`
  call (line 160) do not compile. They are modelled as the `Staticman` code.
- Swift's `String` works on grapheme clusters. Here a string is a sequence of
  characters, and `hasSuffix` and the regex search are character-level.
- `Package.swift` is a build manifest.
