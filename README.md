# BPM table: a verified model

This project models BPM TABLE, a small web page that shows the pitch change between two tempos. The change goes from a source BPM to a destination BPM. It is computed as `(dest - src) * 100 / src` percent, in exact integer arithmetic, rounded half away from zero. It is rendered as a fixed-point decimal. The page shows a 21 x 21 table that starts at a chosen BPM.

- Each cell of the table is classified as black, gray, green or red.
- A cell is framed by edge classes where the "in range" zone borders cells outside it.
- The page keeps a source/destination selection.
- Typed BPMs are clamped into 40..300.

The model has four modules:

- `Wrappers`: `Option`.
- `Strings`: the JavaScript string built-ins the engine uses. Each is restricted to the cases it is used for:
  - `toString()` of an integer;
  - `padStart` with a one-character pad;
  - `join`;
  - `trim`.
  - It also holds readers that the source never calls and that serve only to state round trips: `ParseNat` (decimal digits), `Remove` (drop a character) and `Split` (cut at one character).
- `Bpm`: `src/lib/bpm.ts`.
  - The percent engine is functions.
  - The in-range matrix of `buildTable` (its two nested `map`s over the BPMs) is the comprehension `InRangeGrid`.
  - The nested `map`s that build the rows and their cells are the loops of the methods `BuildTable` and `BuildRow`. These loops also carry the `defaultSelection` assignment.
  - The method is proved equal to the function `Table`, and the layout properties are lemmas about `Table`.
- `App`: the selection logic of `src/App.tsx`.
  - `clamp` and `getCell` are functions.
  - The page state is the class `AppState`. Its commit handlers are methods that update the fields.

Numbers are unbounded integers.

- BigInt `/` and `%`, which truncate toward zero and give the remainder the sign of the dividend, are written out as `TruncDiv` and `TruncRem`.
- The pitch threshold is an integer number of tenths of a percent, `pitchScaled`, which is what `BigInt(Math.round(pitchMax * 10))` yields.

## Model

| member | source | states |
|---|---|---|
| Bpm.Abs | src/lib/bpm.ts:37-39 | the result is non-negative and is the value or its negation |
| Bpm.TruncDiv | src/lib/bpm.ts:49 | BigInt quotient; non-negative for a non-negative dividend and positive divisor |
| Bpm.TruncRem | src/lib/bpm.ts:50 | BigInt remainder; for a non-negative dividend and positive divisor it lies in [0, divisor) |
| Bpm.TruncDivision | src/lib/bpm.ts:49-50 | dividend = quotient * divisor + remainder; the remainder is smaller than the divisor in magnitude and has the dividend's sign |
| Bpm.RoundHalfAwayFromZeroIsNearest | src/lib/bpm.ts:54-56 | the reference rounding is within half a unit of num/den; an exact tie is rounded away from zero; the result has the sign of num |
| Bpm.RoundPercentScaled | src/lib/bpm.ts:41-59 | 0 when src is 0; for src > 0 it equals the half-away-from-zero rounding of (dest - src) * 100 * 10^decimals / src |
| Bpm.RoundPercentScaledSame | src/lib/bpm.ts:41-47 | a BPM compared with itself gives 0 at every precision |
| Bpm.FormatScaled | src/lib/bpm.ts:61-75 | the rendering is non-empty and starts with '-' exactly when the number is negative |
| Bpm.FormatScaledPoint | src/lib/bpm.ts:68-74 | no '.' when decimals is 0, exactly one '.' otherwise |
| Bpm.FormatScaledFraction | src/lib/bpm.ts:62-74 | for decimals > 0, after the optional '-', comes at least one digit and only digits (`intPart.toString()`), then the '.', then exactly `decimals` digits (zero-padded) |
| Bpm.FormatScaledWhole | src/lib/bpm.ts:62-69 | for decimals == 0, after the optional '-', comes at least one digit and nothing but digits |
| Bpm.FormatScaledRoundTrip | src/lib/bpm.ts:61-75 | reading the sign and the digits of the rendering back gives the scaled integer |
| Bpm.FormatScaledWithSign | src/lib/bpm.ts:77-81 | exactly one leading sign: '-' for negative numbers, '+' otherwise, then a digit |
| Bpm.FormatScaledWithSignIsSigned | src/lib/bpm.ts:77-81 | equals "+" + formatScaled for s >= 0 and formatScaled for s < 0; reads back to s |
| Bpm.CalcPercent | src/lib/bpm.ts:83-94 | nothing exactly when src <= 0; otherwise the label is "<src> -> <dest> = <signed>%" |
| Bpm.HundredthsOfPercent | src/lib/bpm.ts:88 | at two decimals the change is the rounded (dest - src) * 10000 / src |
| Bpm.CalcPercentReadBack | src/lib/bpm.ts:88-90 | both texts read back as the change in hundredths of a percent, rounded half away from zero |
| Bpm.CalcPercentSignedText | src/lib/bpm.ts:89-90 | the signed text is "+" + the unsigned text unless the change is negative, when both are the same |
| Bpm.CalcPercentTwoDecimals | src/lib/bpm.ts:89 | the unsigned text ends in '.' and two digits |
| Bpm.CalcPercentSign | src/lib/bpm.ts:88-90 | for 0 < src <= 20000 the signed text starts with '-' exactly when dest < src |
| Bpm.CalcPercentSame | src/lib/bpm.ts:88-90 | a BPM compared with itself reads "0.00" and "+0.00" |
| Bpm.CalcPercentExample125 | src/App.tsx:290 | 125 -> 126 gives "+0.80" |
| Bpm.CalcPercentExample122 | src/App.tsx:290-291 | 122 -> 123 gives "+0.82" |
| Bpm.CalcPercentTies | src/lib/bpm.ts:54-56 | exact ties round away from zero: 32 -> 33 is "+3.13", 32 -> 31 is "-3.13" |
| Bpm.Bpms | src/lib/bpm.ts:97 | 21 BPMs; entry i is bpmMin + i |
| Bpm.InRangeGrid | src/lib/bpm.ts:100-105 | a 21 x 21 matrix whose entry (i, j) is the in-range test \|round(src -> dest, 1 decimal)\| <= pitchScaled |
| Bpm.GridEntry | src/lib/bpm.ts:115 | entry (a, b) of the table's matrix is the in-range test of bpmMin + a and bpmMin + b |
| Bpm.DiagonalInRange | src/lib/bpm.ts:100-104 | with a threshold >= 0 every diagonal pair is in range |
| Bpm.BaseClass | src/lib/bpm.ts:112-126 | first match wins: black iff src = dest or both are multiples of 10; gray iff not black and exactly one is; green iff neither, src != dest and in range; red iff neither, src != dest and out of range |
| Bpm.EdgeClassesRules | src/lib/bpm.ts:128-142 | edge-r/l/t/b present exactly when the cell is in range and that neighbour exists in the grid and is out of range; each at most once, in the order r, l, t, b |
| Bpm.ClassNameTokens | src/lib/bpm.ts:161 | joining class names with ' ' and trimming loses nothing: the result splits back into the names |
| Bpm.CellClasses | src/lib/bpm.ts:117-161 | a cell's className splits into its base class followed by its edge classes |
| Bpm.Cell | src/lib/bpm.ts:154-163 | cell (i, j) has src = bpmMin + i, dest = bpmMin + j, key "<src>-<dest>", and is selectable iff src != dest |
| Bpm.CellTexts | src/lib/bpm.ts:144-148 | texts are empty on the diagonal; elsewhere, for src > 0, they equal calcPercent's valueText, valueTextSigned and labelText |
| Bpm.RowsCell | src/lib/bpm.ts:109-166 | 21 rows; row i starts at bpmMin + i and has 21 cells; its cell j is cell (i, j) |
| Bpm.TableWindow | src/lib/bpm.ts:97-167 | a built table has 21 BPMs from bpms[0] = bpmMin to bpms[last] = bpmMin + 20, and 21 rows |
| Bpm.TableHasCell | src/lib/bpm.ts:109-166 | row i, column j of a built table holds cell (i, j) of the window |
| Bpm.TableIsWindow | src/lib/bpm.ts:97-167 | in a built table every cell (i, j) goes from bpmMin + i to bpmMin + j and is selectable exactly off the diagonal |
| Bpm.KeyParts | src/lib/bpm.ts:155 | a key of non-negative BPMs splits at '-' into their decimal strings |
| Bpm.KeyInjective | src/lib/bpm.ts:155 | the key of non-negative BPMs determines both BPMs |
| Bpm.KeysUnique | src/lib/bpm.ts:155 | for bpmMin >= 0 no two cells of a table share a key |
| Bpm.BuildRow | src/lib/bpm.ts:110-164 | returns the row's cells; the default selection becomes (bpmMin, bpmMin + 1, its label) when that cell is met first |
| Bpm.BuildTable | src/lib/bpm.ts:96-170 | returns Table(bpmMin, pitchScaled): the BPMs, the rows, and defaultSelection = (bpmMin, bpmMin + 1) with that cell's label |
| Strings.NatToStringDigits | src/lib/bpm.ts:69 | `toString()` of a non-negative integer is all decimal digits |
| Strings.NatToStringRoundTrip | src/lib/bpm.ts:69 | the digits of `toString()` read back as the number |
| Strings.PadStartShape | src/lib/bpm.ts:72-74 | `padStart` keeps the string as its suffix and fills the front with the pad character |
| Strings.SplitJoin | src/lib/bpm.ts:161 | splitting a join at a separator no piece contains gives the pieces back |
| Strings.Trim | src/lib/bpm.ts:161 | the result neither starts nor ends with white space; a string that does neither is unchanged |
| App.Clamp | src/App.tsx:12-13 | for min <= max the result lies in [min, max]; it is the value when inside and the violated bound when outside |
| App.GetCell | src/App.tsx:88-111 | a returned cell is selectable; nothing is returned when src or dest lies outside [bpms[0], bpms[last]] |
| App.WindowLookup | src/App.tsx:88-111 | on any table with the shape of the window at bpmMin a cell is found iff both BPMs lie in the window and differ, and then its src and dest are the arguments |
| App.WindowLookupAt | src/App.tsx:100-110 | on such a table the lookup of (bpmMin + i, bpmMin + j) is the cell at row i, column j when i != j, and nothing on the diagonal |
| App.GetCellAt | src/App.tsx:88-111 | on a built table the lookup of (bpmMin + i, bpmMin + j) is cell (i, j) when i != j and nothing on the diagonal |
| App.GetCellOfTable | src/App.tsx:88-111 | on a built table a cell is found iff both BPMs lie in the window and differ, and then its src and dest are the arguments |
| App.DestAfterBpmMinInRange | src/App.tsx:197-201 | after commitBpmMin the destination is next + 1, or next - 1 at 300; it lies in [40, 300] and differs from the source |
| App.CommitBpmMinSelectsCell | src/App.tsx:197-201 | below 300 the pair commitBpmMin selects is a selectable cell of the new table |
| App.CommitBpmMinAtTop | src/App.tsx:198-201 | at 300 the destination 299 is outside the new table, so no cell is selected |
| App.AppState.constructor | src/App.tsx:114-117 | initial state: table from 120, threshold 6.0%, selection 120 -> 121, which is the table's cell (0, 1) |
| App.AppState.CommitBpmMin | src/App.tsx:191-203 | with a parse: bpmMin = sourceBpm = clamp(parsed, 40, 300) and destBpm is the neighbour above (below at 300); without one nothing changes; below 300 the current cell exists |
| App.AppState.CommitSource | src/App.tsx:216-225 | sourceBpm becomes clamp(parsed, 40, 300), or is unchanged without a parse; nothing else changes |
| App.AppState.CommitDest | src/App.tsx:227-236 | destBpm becomes clamp(parsed, 40, 300), or is unchanged without a parse; nothing else changes |
| App.AppState.HandleTableSelect | src/App.tsx:249-252 | copies src and dest verbatim; the current cell then exists iff the pair is an off-diagonal pair of the window, and then both BPMs lie in [40, 320] since the window starts in [40, 300] |

## Left out

- Rendering: the JSX in `src/App.tsx`, `src/components/BpmTable.tsx` and `src/components/BpmList.tsx`. This is markup and event wiring with no logic beyond equality checks.
- Browser effects: the install prompt, `matchMedia`, the scroll lock, `handleInstall`, the service worker `public/sw.js`, and the bootstrapping and build files. These are browser APIs, asynchronous code and network I/O.
- The input text fields and the effect that copies state into them: these are display strings only, and the model keeps the numeric state.
- `parseIntegerInput` and `parseDecimalInput`: these wrap `Number.parseInt` and `Number.parseFloat`. The handlers receive their result as an `Option<int>`.
- `commitPitch`: it rounds a float to one decimal and clamps it to [0, 50], which is floating point.
  - The pitch enters the model only as the integer `pitchScaled` (tenths of a percent).
  - `AppState.pitchScaled` is therefore never updated.
  - The same applies to `Math.round(pitchMax * 10)` in `buildTable`.
- `Number.isFinite` in `calcPercent`: every Dafny `int` is finite.
- `useMemo` caching: `Data()` and `CurrentCell()` are recomputed from the state.
- `calcPercent(sourceBpm, destBpm)` and the label and lookup strings built from it in `App` are `Bpm.CalcPercent` applied to the state. They are not modelled separately.
- Bpm.RoundHalfAwayFromZeroIsNearest, Bpm.RoundPercentScaled: the rounding is proved for src > 0 only. The source's tie step depends only on the sign of the numerator, so for a negative src it is not a half-away-from-zero rounding. Callers never pass a negative src.
- Bpm.CalcPercentSign: stated for src <= 20000. Above that, a destination one BPM slower can round to "+0.00".
- Bpm.KeysUnique: stated for bpmMin >= 0. Keys of negative BPMs contain more than one '-', and the proof reads a key by splitting at '-'.
- JavaScript `number`: BPMs are unbounded integers. The model does not capture three behaviours of `number`.
  - A non-integer `src` or `dest` makes `BigInt(...)` throw in `roundPercentScaled`.
  - Differences above 2^53 lose precision.
  - The template `${src}` prints exponent form from 1e21 up.
  - The callers only pass integers in [40, 320], where none of these occurs.
- Bpm.EdgeClassesRules: stated over the in-range matrix that `buildTable` computes (`Bpm.GridEntry` gives its entries), not re-derived from the percent engine cell by cell.

## Notes on the source

- A cell gets edge classes whenever it is in range, whatever its base class. This includes black and gray cells, not only green ones.
- `valueText` (`formatScaled`) is called unsigned, but it starts with '-' for a negative change. Only the '+' of a non-negative change is missing from it (`Bpm.FormatScaled`, `Bpm.CalcPercentSignedText`).
- The diagonal and the multiple-of-10 crossings share the single class `bpmtable_black`.
- `getCell` on a table with no BPMs compares against `undefined`. Every comparison is false there and the row lookup finds nothing, so the model returns nothing.
- `commitBpmMin` at 300 selects 300 -> 299, which is outside the table that starts at 300. The table then has no current cell (`App.CommitBpmMinAtTop`).
- `handleTableSelect` does not clamp. A table that starts at 300 offers BPMs up to 320, above `BPM_MAX`.
