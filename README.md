# URL parsing pipeline and Path contract, in Dafny

This project models two pieces of the League.url library (version 4):

- **The parse pipeline of the `UrlFactory` trait** (`url_factory.dfy`, module
  `UrlFactory`). `parse` trims its input, splits it with PHP `parse_url`, and
  merges the split over an all-null map of the eight keys `scheme`, `user`,
  `pass`, `host`, `port`, `path`, `query` and `fragment`. When `parse_url`
  refuses the string, `bugFixAuthority` is tried once. It works around PHP bug
  68917, where `parse_url` mis-handles `//host:port` references. A probe,
  `parse_url("//a:1")`, decides whether the platform has the bug. Its result
  is kept in the function-static `$is_bugged`, written on the first call and
  only read after that. The fallback throws unless the platform is buggy and
  the URL starts with `/`. Otherwise it re-splits the URL behind the synthetic
  scheme `php-bugfix-authority:`, and `parse` removes that `scheme` key before
  merging. `createFromComponents` does the same default merge for a map the
  caller supplies and reads the eight values the component constructors get.
- **The `Path` interface** (`path_interface.dfy`, module `PathInterface`). A
  path is an immutable value: a sequence of segments plus an absolute flag.
  `normalize` removes dot segments, on the segment sequence, in the manner of
  section 5.2.4 of RFC 3986, keeping the absolute flag. `isAbsolute`, `getSegment` (lookup with a caller-supplied
  default), `getBasename` and `getExtension` are queries. `withExtension`
  returns a path whose basename has a new extension. Its argument may have a
  leading `.`, and it fails when the basename is empty.

How the model is built:

- `parse_url` is not modelled. It is the function-typed `Splitter` (a string
  to `Option` of a string map; `None` is its `false` return).
- PHP `null` is `None`. A thrown exception is a `Failure` of the `Result` type
  in `wrappers.dfy`.
- The process-wide state is class `UrlFactory.Parser`: the splitter and the
  `$is_bugged` cache, an `Option<bool>` written once. A ghost counter records
  how many times the probe ran, and `Valid()` keeps it at most one.
- The methods `Parser.Parse` and `Parser.BugFixAuthority` are proved equal to
  the functions `ParseOutcome` and `BugFixOutcome`, applied to the probe's
  value. The pipeline's properties are lemmas about those functions, proved
  for every splitter and for both probe values.
- Only the `Path` interface exists in the source, with no implementing class.
  `PathInterface` therefore gives one definition of each operation:
  - `normalize` works on segments, after section 5.2.4 of RFC 3986; for
    absolute paths the two agree. It drops `.`. A `..`
    removes the previous output segment, or is dropped when there is none. A
    path that ends on `.` or `..` keeps a trailing empty segment, i.e. its
    trailing slash.
  - Two choices the interface leaves open are made here; they are not stated
    by the interface or by RFC 3986. An extension is the text after the last
    `.`, except that a dotfile such as `.hidden` has none (PHP's `pathinfo`
    would give `hidden`). `withExtension` strips at most one leading `.` from
    its argument.

## Model

| member | source | states |
|---|---|---|
| `UrlFactory.TrimLeft` | src/Utilities/UrlFactory.php:114 | the result is a suffix of the input; everything dropped is one of trim's blank characters (space, tab, newline, carriage return, NUL, vertical tab); the result does not start with one |
| `UrlFactory.TrimRight` | src/Utilities/UrlFactory.php:114 | the result is a prefix of the input; everything dropped is a blank character; the result does not end with one |
| `UrlFactory.Trim` | src/Utilities/UrlFactory.php:114 | the trimmed URL is a contiguous piece of the input; everything removed before and after it is a blank character; it neither starts nor ends with one |
| `UrlFactory.TrimIdempotent` | src/Utilities/UrlFactory.php:114 | trimming a trimmed string changes nothing |
| `UrlFactory.Merge` | src/Utilities/UrlFactory.php:110-117 | `array_merge` over the defaults: the result holds all eight keys plus the supplied ones; a supplied key keeps its value; a missing one of the eight is null |
| `UrlFactory.MergeIdempotent` | src/Utilities/UrlFactory.php:81-84 | merging over the defaults a second time changes nothing |
| `UrlFactory.ProbeIsBugged` | src/Utilities/UrlFactory.php:147 | the probe's definition, which the cache is proved against: the platform counts as buggy when the splitter refuses `//a:1` |
| `UrlFactory.BugFixOutcome` | src/Utilities/UrlFactory.php:142-155 | throws (with the URL) exactly when the probe says not buggy or the URL does not start with `/` (`StartsWithSlash`, the `strpos($url, '/') !== 0` test); otherwise returns the splitter's answer for `php-bugfix-authority:` followed by the URL |
| `UrlFactory.ParseOutcome` | src/Utilities/UrlFactory.php:108-127 | every successful parse holds all eight keys; every failure is the single "could not be parsed" error for the trimmed URL |
| `UrlFactory.ParseTrimmed` | src/Utilities/UrlFactory.php:115-126 | the steps after trimming: every success holds all eight keys, every failure is the error for that string |
| `UrlFactory.ParseIgnoresSurroundingBlanks` | src/Utilities/UrlFactory.php:114 | `parse(s)` and `parse(trim(s))` have the same outcome, error included |
| `UrlFactory.ParseSplitterWins` | src/Utilities/UrlFactory.php:115-118 | when the splitter accepts the trimmed URL, parse succeeds whatever the probe says; the splitter's keys win over the defaults; every one of the eight it did not produce is null |
| `UrlFactory.ParseFallbackInapplicable` | src/Utilities/UrlFactory.php:150-152 | when the splitter refuses the trimmed URL and the probe says not buggy, or the URL does not start with `/`, parse fails without a second split |
| `UrlFactory.ParseFallbackDropsScheme` | src/Utilities/UrlFactory.php:120-124 | when the fallback's re-split succeeds, parse succeeds with the eight keys plus the re-split's non-scheme keys, a null scheme; every other key of the re-split is kept; every missing one of the eight is null |
| `UrlFactory.ParseFallbackNeverLeaksScheme` | src/Utilities/UrlFactory.php:120-123 | every successful parse of a URL the splitter refused has a null scheme, so the synthetic scheme never leaks |
| `UrlFactory.ParseFallbackFails` | src/Utilities/UrlFactory.php:120-126 | when the prefixed re-split also fails, parse throws and returns no partial map |
| `UrlFactory.ParseSucceedsExactly` | src/Utilities/UrlFactory.php:108-127 | parse succeeds if and only if the splitter accepts the trimmed URL, or the platform is buggy, the URL starts with `/` and the prefixed re-split succeeds |
| `UrlFactory.CreateFromComponents` | src/Utilities/UrlFactory.php:79-94 | each of the eight constructors receives the caller's value for its key, or null when the caller supplied none |
| `UrlFactory.CreateFromParsed` | src/Utilities/UrlFactory.php:65-68 | `createFromComponents` applied to a parse result passes each constructor exactly the parsed value of its key |
| `UrlFactory.Parser.constructor` | src/Utilities/UrlFactory.php:144 | a new process has an unset `$is_bugged` and has run no probe |
| `UrlFactory.Parser.BugFixAuthority` | src/Utilities/UrlFactory.php:142-155 | afterwards the cache holds the probe's value; a cache already set is not recomputed; the result is `BugFixOutcome` for that value |
| `UrlFactory.Parser.Parse` | src/Utilities/UrlFactory.php:108-127 | the result is `ParseOutcome` for the probe's value; the cache is untouched when the splitter accepts the trimmed URL and set otherwise; once set it never changes and the probe has run at most once |
| `UrlFactory.Parser.CreateFromUrl` | src/Utilities/UrlFactory.php:65-68 | the result is `createFromComponents` of the parse result, or the parse error; the cache is untouched when the splitter accepts the trimmed URL and set to the probe's value otherwise; once set it never changes |
| `PathInterface.RemoveDotSegments` | src/Interfaces/Path.php:23-29 | dot-segment removal leaves no `.` or `..` segment and produces no more segments than it was given |
| `PathInterface.RemoveDotSegmentsAppend` | src/Interfaces/Path.php:23-29 | removal runs left to right: a prefix is fully processed before the remaining segments start |
| `PathInterface.RemoveDotSegmentsOfDotFree` | src/Interfaces/Path.php:23-29 | segments without dot segments pass through unchanged |
| `PathInterface.RemoveDotSegmentsKeepsLast` | src/Interfaces/Path.php:23-29 | a last segment that is not a dot segment is still the last segment after removal |
| `PathInterface.RemoveDotSegmentsDropsDot` | src/Interfaces/Path.php:23-29 | a `.` segment anywhere in the input is dropped and changes nothing else |
| `PathInterface.RemoveDotSegmentsCancelsParent` | src/Interfaces/Path.php:23-29 | a `..` that follows a segment other than a dot segment removes that segment, anywhere in the input |
| `PathInterface.RemoveDotSegmentsClamps` | src/Interfaces/Path.php:23-29 | a `..` with nothing before it is dropped without error |
| `PathInterface.Normalize` | src/Interfaces/Path.php:23-29 | the new path keeps the absolute flag and has no `.` or `..` segment; what removal does to `.` and `..` is given by `RemoveDotSegmentsDropsDot`, `RemoveDotSegmentsCancelsParent` and `RemoveDotSegmentsClamps`; a path that already had none is returned unchanged; a path ending on a separator or a dot segment still ends on a separator |
| `PathInterface.NormalizeIdempotent` | src/Interfaces/Path.php:23-29 | normalizing twice is the same as normalizing once |
| `PathInterface.NormalizeExamples` | src/Interfaces/Path.php:23-29 | `/a/b/../c` becomes `/a/c`; `/../a` becomes `/a` (over-popping is clamped); `/a/./b` becomes `/a/b`; `/a/b/..` becomes `/a/`; relative `a/../b` becomes `b` and `a/..` becomes an empty relative path with a trailing separator |
| `PathInterface.IsAbsolute` | src/Interfaces/Path.php:31-36 | the stored absolute flag, with no computation; what the other operations do to it is `AbsoluteFlagPreserved` |
| `PathInterface.AbsoluteFlagPreserved` | src/Interfaces/Path.php:31-36 | `isAbsolute` of the normalized path, and of a successful `withExtension` result, is that of the original path |
| `PathInterface.GetSegment` | src/Interfaces/Path.php:38-46 | the segment at the offset when it exists; otherwise the caller's default, unchanged, with no failure |
| `PathInterface.GetSegmentExamples` | src/Interfaces/Path.php:38-46 | on `/a/b`, offset 5 gives the default, offset 0 gives `a`, and offset -1 gives the null default |
| `PathInterface.GetBasename` | src/Interfaces/Path.php:48-53 | the basename is empty exactly when there are no segments or the path ends on a separator; otherwise it is the last segment as `getSegment` returns it |
| `PathInterface.LastIndexOf` | src/Interfaces/Path.php:55-60 | the position of the last occurrence of a character, or -1; no later position holds it |
| `PathInterface.Extension` | src/Interfaces/Path.php:55-60 | the extension contains no `.`; a non-empty one is the suffix after a `.` that is not the first character; an empty one means no `.` after the first character, or a basename ending in `.` |
| `PathInterface.Stem` | src/Interfaces/Path.php:62-73 | the basename is the stem, followed by `.` and the extension when there is one; a non-empty basename has a non-empty stem |
| `PathInterface.GetExtension` | src/Interfaces/Path.php:55-60 | the extension of the basename; a non-empty one ends the basename after a `.` |
| `PathInterface.ExtensionFollowsBasename` | src/Interfaces/Path.php:48-60 | two paths with the same basename have the same extension |
| `PathInterface.ExtensionExamples` | src/Interfaces/Path.php:48-60 | `/dir/` has an empty basename; `/dir/file.tar.gz` has extension `gz`; `/dir/.hidden` has none |
| `PathInterface.StripLeadingDot` | src/Interfaces/Path.php:66-67 | an argument with a leading `.` loses exactly that one `.`; any other argument is kept as is |
| `PathInterface.WithExtension` | src/Interfaces/Path.php:62-73 | fails exactly when the basename is empty; otherwise the new path has the same flag, length and segments except the last; its basename (`WithExtensionBasename`) is the old stem, then `.` and the new extension unless that is empty |
| `PathInterface.WithExtensionDotOptional` | src/Interfaces/Path.php:66-67 | `withExtension(e)` and `withExtension("." + e)` give the same result |
| `PathInterface.ExtensionOfAppended` | src/Interfaces/Path.php:62-73 | a non-empty stem followed by `.` and a non-empty dot-free extension has exactly that extension and that stem |
| `PathInterface.WithExtensionSetsExtension` | src/Interfaces/Path.php:62-73 | after setting a non-empty extension without dots, `getExtension` returns it |
| `PathInterface.WithExtensionIdempotent` | src/Interfaces/Path.php:62-73 | setting the same non-empty extension twice gives the same path as setting it once |
| `PathInterface.WithExtensionExamples` | src/Interfaces/Path.php:62-73 | `/a/b` with `txt` or `.txt` gives `/a/b.txt`; `/a/b.txt` with no extension gives `/a/b`; `/a/` fails |

## Left out

- The internals of PHP `parse_url`: a foreign library call, modelled as the abstract `Splitter`. The model states only the shape of its result.
- `parse_url` returns `port` as an integer; the model gives every split value as a string, because no property here looks at the value's type.
- The `@` error suppression and the exception messages built with `sprintf`: formatting only. Each exception is the single `Unparseable` outcome carrying the trimmed URL.
- `createFromServer`: it builds a string from the `ServerInfo` accessors, which are not part of this model, and then calls `createFromUrl`.
- The constructors of `Url\Scheme`, `UserInfo`, `Host`, `Port`, `Path`, `Query`, `Fragment` and `Url\Url`, and the `SchemeRegistry`: not part of this model. `CreateFromComponents` stops at the eight values handed to them.
- The parent `SegmentComponent` interface and the concrete `Url\Path` class are not part of this model. There is no `fromString`, and no rule for splitting a path string into segments.
- `WithExtension`: does not reject an extension that contains `/`. The interface says nothing about it, though such an extension breaks the rule that a segment never holds a separator.
- `Normalize`: keeps empty segments from doubled separators, as section 5.2.4 of RFC 3986 does. It does not claim that a normalized path has no empty segment except a trailing one.
- `Normalize`: on a relative path whose `..` removes every earlier segment, the result stays relative (`a/../b` gives `b`); RFC 3986's string algorithm would give `/b`, with a leading `/`. The interface does not name the RFC, and the model keeps the flag.
- `WithExtensionDotOptional`: holds only for an argument that does not already start with `.`, because at most one leading `.` is stripped.
- `WithExtensionSetsExtension` and `WithExtensionIdempotent`: stated only for a non-empty extension without dots. Removing the extension twice can remove two extensions (`a.tar.gz` becomes `a.tar`, then `a`).
- `Extension` and `StripLeadingDot`: the dotfile rule and the "at most one leading `.`" rule are choices the interface leaves open. The repository's concrete `Url\Path`, which is not part of this model, may decide them differently.
- PHP strings are bytes and the model's strings are characters. This makes no difference to `trim`, the `/` test or the `.` search, which only look at ASCII characters.
- `array_merge` returns its keys in order; a Dafny map has no order, so the model says nothing about key order.
- `GetSegment`: PHP's `$default` may be of any type; here it is an `Option<string>`, with `None` for `null`.
- Concurrency around the static probe cache: PHP runs this code on one thread.
- The cache is per process. PHP gives each class using the trait its own function-static; the model has one `Parser` object per such state.
