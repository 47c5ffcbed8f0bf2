# ColorWallpaper command line: argument parsers and colour resolution

A Dafny model of the option layer of the ColorWallpaper wallpaper generator
(`src/CLI.py`). This layer turns the raw command-line arguments into a checked
configuration. The model covers two parts of it:

- the typed argument parsers:
  - `resolution` (`WIDTHxHEIGHT` or `WIDTH:HEIGHT`, each at least 150);
  - `positive` (a number clamped at 1);
  - `in_range` (a closed interval whose bounds may come in either order);
  - `fix_casing` (case-insensitive choice among spellings that may differ only by case);
- the colour resolution at the end of `get_options`. It picks a background,
  random or parsed. It redraws a random background until it meets the overlay
  contrast, and it pairs the background with its inversion at the minimum
  contrast. When the inversion fails it draws a new background and starts again.

Files:

- `wrappers.dfy`: `Option` and `Result`.
- `resolution.dfy`: the resolution parser. It has a reference definition of the pattern's language
  (`Split`, `WellFormed`, `Join`) and proofs that the scanner accepts exactly that
  language, reads each argument in its one way, and round-trips with `Decimal`.
- `numeric.dfy`: `positive` and `in_range`. Here `typ` is `int` (truncation toward zero) or `float`.
- `casing.dfy`: `fix_casing` written step by step as the source computes it (`Cased`). It is
  proved equal to the three-tier precedence rule, stated over the reference list `Variants`
  of the names that match the argument ignoring case.
- `color_resolver.dfy`: the resolution loop as a method (`Resolve`) with a nested loop.
  It takes a record of the colour library's operations and a sequence of random colours.
  Its result is proved equal to a reference definition, `ResolveSpec`, and lemmas about that
  definition say which supplied colour wins and when the supplied colours run out.

Behaviours of the code that the model keeps as written:

- `fix_casing` treats a word as ambiguous whenever its lower-case form occurs more than
  once, even when both occurrences are the same spelling (`CasedRepeatedName`). Only a
  tie between different casings is a real ambiguity.
- The fatal contrast error tests the `random` flag computed once at the start
  (src/CLI.py:185). An explicit background that meets the overlay threshold but has no
  inversion at the minimum contrast is replaced by random colours (src/CLI.py:208). No
  error is raised, although the help text of `--min-contrast` says one is. From then on
  the replacements are not redrawn for the overlay. The first replacement below the
  overlay threshold raises the fatal error, naming that random colour. The first one that
  has an inversion is taken. `PinnedReplaced` states both outcomes.
- Conversely, an explicit background that meets the overlay threshold and has an
  inversion (or is used with an explicit `--color2`) is kept, and nothing is drawn
  (`PinnedKept`).

## Model

| member | source | states |
|---|---|---|
| `Resolution.ParseResolution` | src/CLI.py:19-31 | a resolution it returns has both dimensions at least 150 |
| `Resolution.ScanSound` | src/CLI.py:16-21 | every reading the scanner `Scan` returns is a well-formed match of `\s*(\d+)\s*[x:]\s*(\d+)\s*` whose parts join to the whole argument (full match) |
| `Resolution.ScanFindsSplit` | src/CLI.py:16-21 | `Scan` matches every argument in the pattern's language, and is read in exactly one way |
| `Resolution.DigitsValueBounds` | src/CLI.py:26 | `int` of a string of n digits is below 10^n, and at least 10^(n-1) without a leading zero |
| `Resolution.ResolutionOfMatch` | src/CLI.py:21-31 | a matching argument yields the two integers its digit groups spell, or "Minimal resolution" exactly when one is below 150 |
| `Resolution.ResolutionUnparsable` | src/CLI.py:21-24 | "Unable to parse" is returned exactly for the arguments that no well-formed reading joins to |
| `Resolution.ResolutionRoundTrip` | src/CLI.py:16-31 | `W x H` printed in decimal with either separator parses back to `(W, H)` for all W, H of at least 150 |
| `Resolution.ResolutionExampleAccepted` | src/CLI.py:16-31 | the argument `800x600` gives `(800, 600)` |
| `Resolution.ResolutionExampleTooSmall` | src/CLI.py:28-29 | `100x200` is refused with the minimal-resolution error |
| `Resolution.ResolutionExampleUpperX` | src/CLI.py:16-24 | an upper-case `X` separator does not match the pattern |
| `Numeric.Truncate` | src/CLI.py:43 | `int(x)` rounds toward zero: it lies within 1 of x on the side of zero |
| `Numeric.Convert` | src/CLI.py:43 | `float` leaves the value unchanged; `int` gives an integral value that is below 1 exactly when x is, and is the floor of x from 1 up |
| `Numeric.Positive` | src/CLI.py:34-45 | the result is never below 1: any input below 1 gives 1, and larger inputs are kept (their integer part, for `int`) |
| `Numeric.PositiveIdempotent` | src/CLI.py:41-43 | parsing a result of `positive` again returns it unchanged |
| `Numeric.PositiveMonotonic` | src/CLI.py:41-43 | a larger input never gives a smaller result |
| `Numeric.PositiveExamples` | src/CLI.py:41-43 | `positive(int)` maps 0.4 and -5 to 1 and 3.7 to 3; `positive(float)` keeps 2.5 |
| `Numeric.Sorted` | src/CLI.py:56 | the bounds come out ordered and are the two given bounds |
| `Numeric.InRange` | src/CLI.py:48-68 | accepts exactly when `min(low, high) <= typ(v) <= max(low, high)` and then returns `typ(v)`; otherwise the error carries `typ(v)` and the sorted bounds |
| `Numeric.InRangeSymmetric` | src/CLI.py:56-66 | `in_range(typ, low, high)` and `in_range(typ, high, low)` give the same result on every input |
| `Numeric.ContrastThresholdRange` | src/CLI.py:137-158 | the two contrast options accept exactly the values from 1 to 21 and keep them unchanged |
| `Casing.LowerIsLowerCase` | src/CLI.py:88-90 | `str.lower` keeps the length, leaves no capital, and changes only capitals, each to its lower-case letter |
| `Casing.LowerAll` | src/CLI.py:88 | the lower-cased names, position by position |
| `Casing.Count` | src/CLI.py:93 | `tuple.count` is positive exactly when the value occurs |
| `Casing.IndexOf` | src/CLI.py:96-98 | `tuple.index` returns the first position holding the value |
| `Casing.Cased` | src/CLI.py:82-104 | a result is one of the names and equals the argument ignoring case; an argument that is itself a name is returned as it is |
| `Casing.CountIsVariants` | src/CLI.py:93 | the count of a lower-case form among the lower-cased names is the number of names that equal it ignoring case |
| `Casing.FirstVariant` | src/CLI.py:97-98 | the name found through the first matching lower-case form is the first name that matches ignoring case |
| `Casing.AmbiguityCandidates` | src/CLI.py:100-103 | the listed candidates are at most as many as the names, and are exactly the names whose lower-case form is the argument's and is duplicated |
| `Casing.CandidatesAreVariants` | src/CLI.py:100-103 | the ambiguity error lists exactly the names that match ignoring case, in order |
| `Casing.CasedPrecedence` | src/CLI.py:88-104 | three-tier precedence: an exact name is returned; otherwise no match is "Invalid choice", one match is returned, and two or more are "Ambiguous choice" naming all of them |
| `Casing.CasedInvalidExactly` | src/CLI.py:88-91 | "Invalid choice" exactly when no name equals the argument ignoring case |
| `Casing.CasedAmbiguousExactly` | src/CLI.py:93-103 | "Ambiguous choice" exactly when the argument is not a name and its lower-case form occurs two or more times among the lower-cased names |
| `Casing.CasedIdempotent` | src/CLI.py:95-98 | feeding a result back in returns it unchanged |
| `Casing.CasedDocExampleUnique` | src/CLI.py:73 | `('One', 'Two', 'Three')` maps `tHreE` to `Three` |
| `Casing.CasedDocExampleCaseVariant` | src/CLI.py:74 | `('aaa', 'Aaa', 'bbb')` maps `BbB` to `bbb` |
| `Casing.CasedDocExampleExact` | src/CLI.py:75 | `('aaa', 'Aaa', 'bbb')` maps `aaa` to `aaa`, although `Aaa` has the same lower-case form |
| `Casing.CasedDocExampleAmbiguous` | src/CLI.py:76 | `('aaa', 'Aaa', 'bbb')` rejects `aAa` as ambiguous between `aaa` and `Aaa` |
| `Casing.CasedRepeatedName` | src/CLI.py:93-103 | a spelling listed twice makes its other casings ambiguous |
| `ColorResolver.Resolve` | src/CLI.py:185-215 | the outcome is `ResolveSpec`. A resolved background meets the overlay contrast. The highlight is its inversion at the minimum contrast, or the parsed `--color2`. The background is the parsed `--color` or the last colour drawn. The fatal contrast error needs a background that was not random at the start, and is raised at once for an explicit background below the threshold. With explicit colours and no overlay, both texts are parsed and nothing is drawn. An explicit background is replaced only when it has no inversion |
| `ColorResolver.FirstAcceptableAt` | src/CLI.py:193-208 | among random backgrounds, the first one that meets the overlay threshold (and, under `inverted`, has an inversion) is taken, after exactly that many draws |
| `ColorResolver.FirstAcceptableExhausted` | src/CLI.py:193-208 | the search over random backgrounds runs out exactly when no supplied colour is acceptable |
| `ColorResolver.FirstDecisiveAt` | src/CLI.py:194-211 | after an explicit background was replaced, the first replacement that fails the overlay threshold or has an inversion settles the outcome: the fatal error or that pair |
| `ColorResolver.FirstDecisiveExhausted` | src/CLI.py:194-211 | after an explicit background was replaced, the search runs out exactly when no replacement fails the overlay threshold or has an inversion |
| `ColorResolver.RandomFirstAcceptableWins` | src/CLI.py:188-208 | with `--color random`, the first acceptable supplied colour is the background, and the count of draws ends at it |
| `ColorResolver.RandomExhausted` | src/CLI.py:188-208 | with `--color random`, the colours run out exactly when none of them is acceptable |
| `ColorResolver.PinnedKept` | src/CLI.py:190-215 | an explicit background that meets the overlay threshold and has an inversion (or any, with an explicit `--color2`) is kept and nothing is drawn |
| `ColorResolver.PinnedReplaced` | src/CLI.py:194-211 | an explicit background with no inversion is replaced without error; the first replacement below the overlay threshold is the fatal error naming it, and the first one with an inversion is taken |
| `ColorResolver.PinnedReplacedExhausted` | src/CLI.py:194-211 | an explicit background with no inversion runs out of replacements exactly when none is decisive |

## Left out

- `float(arg)` and its errors, and all floating-point behaviour (NaN, infinities, rounding). The numeric parsers start from the parsed value as an exact real.
- `Numeric.Positive`: the model gives a real; the source returns a Python `int` or `float`, and `max(1, x)` returns the integer 1 even for `float`. Only the value is modelled.
- Unicode: `\s` is the ASCII whitespace that Python's `re` matches (tab to carriage return, 0x1C to 0x1F, space). `\d` is `0`-`9`. `str.lower` maps only `A`-`Z`. Non-ASCII digits, spaces and case mappings are not modelled.
- The `isinstance(arg, str)` test in `cased`: every argument in the model is a string.
- The argparse schema, the defaults, help strings, `Path` handling, `nargs="+"` and `parse_args` (src/CLI.py:115-183). These are library dispatch. The contrast options' use of `in_range(float, 1, 21)` is stated in `Numeric.ContrastThresholdRange`.
- The colour library (`Color.from_str`, `Color.random`, the contrast operator, `inverted`) and `normalized` from `common`. They are not part of this model, so they enter `Resolve` as parameters. `Color.random()` is a caller-supplied sequence of colours.
- ColorResolver.Resolve: the source's loops (src/CLI.py:193 and 201) have no bound and may run forever. The model stops with `Exhausted` once the supplied random colours are used up, so it states nothing about termination or the probability of success.
- `int_tuple` from `common` is not part of this model. `resolution` is taken to return the two captured digit groups converted by `int`, in order (src/CLI.py:26).
- Exceptions other than those modelled: `inverted` failing with anything but `RuntimeError`, and `Color.from_str` raising on `--overlay-color` (argparse reports that one).
