# End-credits roll: grouping, scroll planning and the animation slot

This project models the logic inside the end-credits page (`product-100_end/script.js`).
The page takes the rows of a parsed CSV table and, in order, turns them into section
headers and role/name lines. It then plans a vertical scroll animation of the rendered
credits, in one of two modes:

- **stop-at-message**: when a final message was rendered, the credits decelerate and come
  to rest with that message centred on screen;
- **continuous**: otherwise the credits scroll linearly until they have left the screen.

A planned animation is installed as a `dynamic-scroll` keyframe rule in a style tag. Any
tag installed earlier is removed first.

Modules:

- `Options` (`options.dfy`): the `Option` type; `None` stands for JavaScript's `null`.
- `Credits` (`credits.dfy`): rows, entries and the grouping loop.
  - `BuildCredits` is the loop. It carries `currentSection` and appends entries.
  - It is proved equal to the reference definition `CreditEntries`. That definition
    concatenates, row by row, what each row contributes. A row opens a section when its
    section value is non-empty and differs from `LastSection`, the last non-empty section
    value among the rows before it.
- `Planner` (`planner.dfy`): the arithmetic of the two modes, as functions on `real`.
- `Animation` (`animation.dfy`): the `StyleSlot` class. It holds the page's
  `dynamicStyleTag` and the dynamic keyframe rules attached to the document head.

Behaviour of the code worth knowing:

- When the first row has fewer than three keys, the missing column's key is `undefined`.
  JavaScript then reads the property named `"undefined"`. The field reads as `""` only
  when the row has no field of that name. The model keeps this (`UNDEFINED_KEY`).
- A header is emitted once per change in the sequence of non-empty section values. An
  empty section between two equal ones does not reopen the section: rows with sections `Cast`, `""`, `Cast`
  give one header (`EmptySectionDoesNotReopen`). Counting runs of consecutive rows with the
  same non-empty section would give two here.
- In stop-at-message mode the ease point is at least 90 and strictly below 100.
- In continuous mode the keyframes run from `+screenHeight` to
  `-(contentHeight + screenHeight)`. That is `contentHeight + 2 * screenHeight` pixels.
  The duration is computed for `contentHeight + screenHeight` pixels. So this mode scrolls
  faster than one screen height per requested interval. The model keeps the code's values
  and states the gap (`ContinuousTravelsExtraScreen`).
- Stop-at-message mode reads the content height but does not use it.

## Model

| member | source | states |
|---|---|---|
| `Credits.BuildCredits` | product-100_end/script.js:100-139 | the loop over the rows, carrying `currentSection`, builds exactly the reference sequence `CreditEntries(rows)`: at each row `currentSection` is the last non-empty section seen |
| `Credits.OneLinePerRow` | product-100_end/script.js:108-139 | every row yields exactly one role/name line, in input order, whatever its section, role or name (empty ones included) |
| `Credits.LastSectionIsLastNonEmpty` | product-100_end/script.js:105-119 | after any number of rows, the current section is the last non-empty section value among them, or none |
| `Credits.HeadersAreSectionChanges` | product-100_end/script.js:105-119 | the header sequence is the sequence of non-empty section values with each run of equal values collapsed to one |
| `Credits.HeaderCount` | product-100_end/script.js:113-119 | the number of headers is the number of changes in the non-empty section values; no header is empty; no two consecutive headers name the same section |
| `Credits.HeaderPrecedesItsLine` | product-100_end/script.js:113-138 | every header is immediately followed by the line of the row that triggered it; that row's section is the header's and the row opens a section |
| `Credits.ColumnNamesAreIrrelevant` | product-100_end/script.js:100-111 | columns are bound by position only: an injective renaming of the keys that keeps their enumeration order (as a new header line does when none of its names is an array index) leaves the credits unchanged, for every table (the empty one and short headers included), provided the renaming keeps the key "undefined" that an absent column reads |
| `Credits.MissingNameColumnReadsEmpty` | product-100_end/script.js:100-111 | with fewer than three keys in the first row, and no field named "undefined", every line's name is empty |
| `Credits.NoRowsNoEntries` | product-100_end/script.js:100-108 | an empty row sequence builds no entries |
| `Credits.CastAndCrewExample` | product-100_end/script.js:105-139 | rows Cast/Lead/Alice, Cast/Support/Bob, Crew/Director/Carol give header Cast, two lines, header Crew, one line |
| `Credits.EmptySectionDoesNotReopen` | product-100_end/script.js:113-119 | a row with an empty section between two rows of section Cast adds a line but no second Cast header |
| `Planner.StopTarget` | product-100_end/script.js:167 | the stop translation centres the message: top + translation + height/2 equals half the screen height |
| `Planner.StopPlan` | product-100_end/script.js:159-193 | starts one screen below; ends with the message centred; positive travel; duration × screenHeight = travel × requested seconds; ease point = max(90, entry percentage), hence in [90, 100); ease-out; holds its last frame |
| `Planner.ContinuousPlan` | product-100_end/script.js:195-204 | ends with the content's bottom edge one screen above the top; duration × screenHeight = (contentHeight + screenHeight) × requested seconds; ease point exactly 99.9; linear; does not hold its last frame |
| `Planner.ScrollPlan` | product-100_end/script.js:156-205 | the mode follows whether a final message exists; in both modes the start is one screen height and the ease point lies in [90, 100) |
| `Planner.DurationScales` | product-100_end/script.js:176-199 | for fixed geometry, scaling the requested seconds by k scales the duration by k and leaves every other field of the plan unchanged |
| `Planner.DoublingDoublesDuration` | product-100_end/script.js:176-199 | doubling the requested seconds doubles the duration, in both modes |
| `Planner.DurationPositive` | product-100_end/script.js:171-199 | a positive request and a non-negative content height give a positive duration |
| `Planner.ContinuousTravelsExtraScreen` | product-100_end/script.js:198-202 | in continuous mode the keyframes travel contentHeight + 2 × screenHeight, one screen height more than the duration pays for |
| `Planner.ContinuousExample` | product-100_end/script.js:198-204 | screen 1000, content 4000, 2 s: ends at -5000, 10 s, ease point 99.9, linear |
| `Planner.StopExample` | product-100_end/script.js:159-193 | screen 1000, message at 3000 of height 100, 2 s: ends at -2550, 7.1 s, ease point clamped to 90, ease-out |
| `Animation.Without` | product-100_end/script.js:44-46 | removing a tag that is attached shortens the attached rules by one; removing one that is not attached changes nothing |
| `Animation.FirstIndex` | product-100_end/script.js:44-46 | the position of the tag in the attached rules: it holds the tag and no earlier position does |
| `Animation.WithoutRemovesFirst` | product-100_end/script.js:44-46 | removal takes out exactly the first occurrence of the tag and keeps the other rules in their order |
| `Animation.StyleSlot.constructor` | product-100_end/script.js:15 | the slot starts empty, with no rule attached |
| `Animation.StyleSlot.Install` | product-100_end/script.js:42-50 | any previously installed rule is removed before the new one is added, so exactly the new rule is attached afterwards |
| `Animation.StyleSlot.Animate` | product-100_end/script.js:188-204 | plans from the measured geometry and installs that plan's end translation and ease point as the only keyframes |
| `Animation.Replay` | product-100_end/script.js:42-50 | starting the credits once per run, in order, keeps exactly one rule attached after every run; at the end only the last run's keyframes remain, and none when there were no runs |

## Left out

- DOM construction and styling: elements, class names, font and background colour. The model produces an entry sequence instead.
- The title and the final-message element: rendering only. Whether a final message was rendered is the `finalMessage` field of `Planner.Geometry`; the page renders one iff its text is non-empty.
- CSV parsing by the external parsing library, its error check and the `alert` messages. Rows arrive as `Credits.Row` values, keys in the order `Object.keys` enumerates them.
- Key enumeration order: `Object.keys` lists array-index keys (such as `1` or `2024`) first, in ascending order, and the other keys after them in insertion order. A header line with such a name therefore changes which column is bound to section, role and name (`Section,Role,1` binds column `1` to the section). The model takes the enumeration order as given in `Credits.Row.keys` and does not derive it from the header line.
- The early return when no rows are loaded: the grouping is modelled for every row sequence, the empty one included.
- Property lookups that reach inherited object properties (a column named like a built-in object member): rows are plain maps.
- Event listeners and the slider label: plumbing.
- Layout measurement (`innerHeight`, `offsetHeight`, `offsetTop`, the forced reflow): the measured values are the inputs of `Planner.ScrollPlan`.
- The keyframe and animation CSS text, including the two-decimal rounding of `toFixed(2)`: a plan is a record of reals.
- The 100vh start: the keyframes start at `translateY(100vh)` while the arithmetic uses the window's inner height. The model takes the two as equal: every plan starts at `screenHeight`.
- IEEE-754 floating point: all arithmetic is on `real`. Planning requires a positive screen height, and a final message with non-negative top and height; these make every division defined.
