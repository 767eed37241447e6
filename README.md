# Sheets formula generator: the `Formula` template engine in Dafny

`Formula` (lib.hpp) fills in `${name}` placeholders in a template string.
- `parse()` copies the template into a working copy. It then scans for `${`, reads the name up to `}` (or up to the end of the text), records the name and the position of the `$`, and erases the placeholder. The scan resumes at the erasure point.
- `define()` stores the values to use.
- `replace()` appends to `result_` the literal slices of the working copy interleaved with the looked-up values.
- All errors go into one status string. `result()` shows that string instead of the result whenever it is not `"OK"`.

The model keeps the source's shape:

- `Engine.Formula` is a class with the same fields: the template, the working copy, the result, the two lists of `vars_`, the definitions and the status. Its methods update those fields in place with the source's loops.
- Each method is proved against a specification function.
  - `Scanner.Locate` specifies one call of `next_$`.
  - `Parsing.Scan` specifies the parse loop.
  - `Substitution.Splice` specifies the replace loop.
- Lemmas state what those functions mean:
  - recorded positions are ordered and inside the working copy;
  - putting each `${name}` back at its position restores the template;
  - the replace loop interleaves values into the working copy;
  - lookups only add `""` entries.
- `Messages.Status` holds the status. Its `Text` is the exact message `status_` holds, with `Decimal` standing in for `std::to_string`.
- `string` stands for the bytes of a `std::string`, one position per byte. Recorded positions and the index in the invalid-name message are therefore byte offsets: a non-ASCII character takes several positions in the source.
- `Usage` runs the chain `Formula(t).parse().define(defs).replace().result()` on a new object. `Scenarios` walks concrete templates through it.

Behaviour of the code that is easy to miss, which the model reproduces as written:

- **Unterminated placeholders.** A placeholder is also ended by the end of the text (`${abc` is accepted as `abc`), not only by `}`.
- **Over-long names.** The name that overflows `INT32_MAX` is itself recorded before the overflow status is set.
- **Positions in messages.** The position in an "Invalid variable name" message is an index into the working copy, which earlier erasures have already shortened. It is not an index into the template.
- **`replace()` after a failed parse.** It still runs and appends to `result_`. Only `result()` hides the text behind the status.
- **An empty working copy.** A template made only of placeholders (or an empty template) leaves an empty working copy. `replace()` then reports "You have to run .parse() first."
- **The second guard.** The "define first" guard tests the same emptiness, so it can never fire after the first one.
- **Parsing twice.** A second `parse()` appends a second batch to `vars_`; nothing is cleared.

## Model

| member | source | states |
|---|---|---|
| Messages.Status.Text | lib.hpp:110-213 | the exact text `status_` is set to for each error, with the offending index or value in decimal; `TextIsOk` states that only success reads "OK" |
| Messages.TextIsOk | lib.hpp:80-86 | a status renders as "OK" exactly when it is `Ok`, so `result()`'s comparison with "OK" tells success from every error |
| Scanner.IsNameChar | lib.hpp:99-102 | the name characters are exactly `[a-z]`, `[A-Z]`, `[0-9]` and `_`; `ReadNameFacts` and `LocateFacts` state what a read makes of them |
| Scanner.FindOpening | lib.hpp:90-92 | the search finds the first `$` followed by `{` at or after the start; none in between; none at all when it fails |
| Scanner.ReadName | lib.hpp:96-115 | the `j` loop of `next_$` as a function: reads name characters up to `}` or the end of the text, stopping at any other character; its meaning is stated by `ReadNameFacts` |
| Scanner.ReadNameFacts | lib.hpp:96-115 | a name read is the run of `[A-Za-z0-9_]` characters ended by `}` or the end of the text; a failed read points at the first character that is neither |
| Scanner.Locate | lib.hpp:88-130 | when one scanner call reports no placeholder, no `${` starts at or after the cursor; a found one is the first `${` from the cursor |
| Scanner.LocateFacts | lib.hpp:88-130 | a found placeholder is `${`, its name, then `}` or the end of the text; an invalid one points at the first character after the first `${` from the cursor that is neither a name character nor `}`, with only name characters between |
| Scanner.LocateExact | lib.hpp:88-130 | conversely, the first `${` from the cursor followed by name characters up to `}` or the end is found with exactly that name |
| Scanner.Erase | lib.hpp:150 | `erase(pos, count)` removes `count` characters, clamped to the end of the text, and keeps everything before `pos` |
| Parsing.Scan | lib.hpp:107-125 | names and positions are recorded together, so the two lists always have the same length; the only failures the loop records are the invalid-name and the overflow status |
| Parsing.ScanInvalid | lib.hpp:107-113 | the index in an invalid-name status points into the working copy the whole parse leaves, at a character after a `${` that is neither a name character nor `}` |
| Parsing.Parsed | lib.hpp:134 | `parse()` scans a copy of the template from cursor 0; `ScanOrdered`, `ScanRestores` and `NoPlaceholderUnchanged` state what it yields |
| Parsing.ScanOrdered | lib.hpp:135-156 | the text before the cursor is never changed, and the recorded positions never decrease and lie inside the final working copy |
| Parsing.NoPlaceholderUnchanged | lib.hpp:132-158 | a template without `${` parses to itself, with nothing recorded and no error |
| Parsing.ScanRestores | lib.hpp:132-158 | when parsing succeeds, putting each name's `${name}` back at its recorded position gives back the template, plus the `}` an unterminated last placeholder lacked |
| Substitution.SpliceRewinds | lib.hpp:216 | a position before the cursor, as a second parse records them, gives a negative count, so `substr` takes the whole rest of the working text before the value |
| Substitution.Value | lib.hpp:218 | the value `definitions_[name]` yields: the stored one, or "" for a missing name, as `Touch` states and `Scenarios.MissingIsEmpty` shows |
| Substitution.Touch | lib.hpp:218 | `definitions_[name]` yields the stored value or "", and leaves the map with `name` added (as "") only if it was missing |
| Substitution.Splice | lib.hpp:208-221 | the replace loop from occurrence `i` with cursor `last`, stopping at a negative index; `SpliceInterleaves`, `SpliceDefinitions`, `SpliceNeverNegative` and `SpliceRewinds` state what it appends and leaves |
| Substitution.SpliceDefinitions | lib.hpp:209-219 | the replace loop keeps every existing definition and adds only recorded names, each mapped to "" |
| Substitution.SpliceNeverNegative | lib.hpp:211-215 | with no negative index the "index can not be negative" guard never fires |
| Substitution.SpliceInterleaves | lib.hpp:208-221 | for positions in order, the loop appends exactly the working copy with each name's value put in at its position, and leaves the definitions filled with "" for missing names |
| Engine.Formula.constructor | lib.hpp:74 | a new Formula holds the template verbatim, empty working copy, result and lists, no definitions, status "OK" |
| Engine.Formula.StatusText | lib.hpp:78 | `status()` is "OK" exactly when no error was recorded |
| Engine.Formula.ResultText | lib.hpp:80-86 | `result()` is the result when the status is OK, otherwise the status message (which is never "OK") |
| Engine.Formula.NextPlaceholder | lib.hpp:88-130 | `next_$` returns ENONE, EINVALID (status set to the invalid-name message at the bad index, nothing recorded), EIDXOVF (name recorded, then overflow status), or the `$` position and `|name| + 3`, with the name and position appended |
| Engine.Formula.Parse | lib.hpp:132-158 | `parse()` leaves the working copy `Parsed(template)` gives, appends that parse's names and positions to `vars_`, sets the status only on an error and never resets it, and keeps the object invariant |
| Engine.Formula.Define | lib.hpp:160-164 | inserts or overwrites one definition, nothing else |
| Engine.Formula.DefineAll | lib.hpp:166-170 | replaces all definitions by the given map |
| Engine.Formula.NotParsed | lib.hpp:172-181 | true exactly when the working copy is empty, and then the status is the "run .parse() first" message |
| Engine.Formula.NoSubstitutesDefined | lib.hpp:183-192 | true exactly when the working copy is empty (not the definitions), and then the status is the "define first" message |
| Engine.Formula.Replace | lib.hpp:194-224 | with an empty working copy only the "not parsed" status is set; with lists of different lengths only the internal-error status; otherwise the replace loop's text is appended to the old result (never cleared), lookups insert missing names, and a negative index stops it with its message |
| Engine.ParseConsistent | lib.hpp:132-158 | parsing again keeps the invariant: equal list lengths, and every recorded index inside the parsed text |
| Engine.ConsistentNoBug | lib.hpp:202-215 | in a Formula that keeps the invariant neither BUG guard of `replace()` can fire, and every slice starts inside the working copy |
| Usage.Prepare | lib.hpp:132-170 | `parse()` then `define(defs)` on a new Formula gives the template, one parse of it, the definitions, an empty result and the parse's status, and the object keeps its invariant, so the chain can go on |
| Usage.Render | lib.hpp:194-224 | the whole chain shows "not parsed" for an empty working copy, the parse error if there was one, and otherwise the working copy with each value interleaved at its position |
| Usage.NoPlaceholderRendered | lib.hpp:132-158 | a non-empty template without `${` comes out unchanged |
| Usage.SelfDefinedRendered | lib.hpp:194-224 | defining every name as its own `${name}` gives the template back: replace undoes parse |
| Scenarios.HelloParsed | lib.hpp:132-158 | "Hello, ${name}!" parses to "Hello, !" with `name` recorded at 7 |
| Scenarios.HelloWorld | lib.hpp:194-224 | "Hello, ${name}!" with name = "World" renders "Hello, World!" |
| Scenarios.EmptyName | lib.hpp:96-97 | `${}` is accepted, with the empty name |
| Scenarios.Unterminated | lib.hpp:96-97 | `${abc` at the end of the text is accepted, with the name `abc` |
| Scenarios.Seam | lib.hpp:147-150 | the scan resumes at the erasure point, so a `$` before a placeholder and a `{` after it form a new `${` in the working copy that is not scanned |
| Scenarios.InvalidKeepsEarlier | lib.hpp:107-113 | an invalid character stops the parse with its working-copy index, keeping the occurrence recorded before it |
| Scenarios.OnlyPlaceholders | lib.hpp:172-181 | a template made only of a placeholder renders as the "run .parse() first" message |
| Scenarios.InvalidShown | lib.hpp:80-86 | after an invalid name the chain shows the invalid-name status instead of a result |
| Scenarios.TwoParsed | lib.hpp:132-158 | "a${x}b${y}c" parses to "abc" with `x` at 1 and `y` at 2 |
| Scenarios.ParsedTwiceSpliced | lib.hpp:208-221 | with the lists two parses of "a${x}b${y}c" record (its names and positions twice over "abc"), the replace loop rewinds and appends "aXbYcXbYc" |
| Scenarios.MissingIsEmpty | lib.hpp:218 | a name with no definition is replaced by the empty string |

## Left out

- `expect(fn)` is declared at lib.hpp:23 but never defined, so it is not modelled.
- The destructor and the `Formula&&` returned for chaining are not modelled. Methods return nothing, and a chain is a sequence of calls (`Usage.Prepare`, `Usage.Render`).
- Engine.Formula.Replace: requires every recorded index to be at most the working copy's length. A larger one would make `std::string::substr` throw `std::out_of_range`, which is not modelled. A Formula that keeps its invariant always meets this (`Engine.ConsistentNoBug`).
- Text longer than `INT32_MAX` characters is not modelled. This covers the `int` cursor of `next_$` wrapping at `start_at + 1`, and the comparisons of `int` indices with `size_t` sizes. The overflow check on `name.size() + 3` is modelled.
- Messages.Decimal: stands for `std::to_string` on `int`. It is defined digit by digit, but nothing about it is proved.
- Allocation failures and exceptions from `std::string` and `std::map` are not modelled. The class has no I/O, clock or concurrency.
