# torajs: conformance helpers and table generators

This project models the parts of torajs that hold an algorithm of their own: the
helpers of the test262 harness (`conformance/test262-harness.ts`), the two table
generators (`scripts/`), and four conformance programs (`conformance/cases/`). Code
that updates state is a class or a method with loops, proved against a specification
function or predicate; what the source promises is then proved of the specification.

**Structural equality** (`JsValues`, `SortedKeys`, `DeepEqualSpec`, `DeepEqualCases`,
`DeepEqual`). The
harness compares two object graphs that may be cyclic. It enters a pair of objects into
a cache as EQUAL before it descends, and several exits answer NOT_EQUAL without
correcting that entry. `DeepEqualSpec` defines equality without a cache: no finite
number of nested observations tells the values apart. It is an equivalence, it unfolds
part by part, and it contains every bisimulation; `DeepEqualCases` spells it out for
primitives and for each kind of object. `DeepEqual` is the recursion over the
cache. On EQUAL the cached pairs form a bisimulation; on NOT_EQUAL the method yields a
depth that separates the values; while no difference has been found every cache hit says
EQUAL. So the verdict is exactly structural equality, and the recursion ends on every
finite graph. `StaleExit` lists the exits that leave a wrong entry behind, and
`CompareThenRecall` shows that the cache contradicts the verdict exactly there.

**NativeFunction texts** (`Texts`, `NativeFunctionGrammar`, `NativeFunctionReading`,
`NativeFunctionProofs`, `NativeFunctionScan`, `NativeFunctionStrings`,
`NativeFunctionNames`). The language is the set of renderings of
well-formed derivation trees: optional accessor and name, balanced brackets, string
literals, and white space and comments anywhere between tokens. The scanner is a class
with a cursor and a sticky error flag. It accepts a text if and only if the text is in
the language. A string literal is taken to end at the first quote of its kind that no
backslash precedes, as the code does. In ECMAScript a backslash consumes the unit after
it, so a literal may end in an escaped backslash. `LiteralEnds` compares the two on every
text: they agree exactly when the literal has no line terminator and no backslash before
its closing quote. `ValidateWithLiteral` carries this to whole source texts, such as
`function ("\\") { [native code] }`, which is rejected. `NativeFunctionNames` says, with the
code units written out, which names, separators, accessors, parameters and comments are
accepted.

**ULP distance** (`Bits`, `Float64`, `Ulp`). A double is its 64-bit pattern. The
distance of two patterns of one sign counts representable doubles; the byte order is
probed once. The distance rounds above 2^53, which can let more through, never less. The
verdict is right for all finite operands exactly for a tolerance below 2^53, twice an odd
number below 2^54, or at least the largest distance (`VerdictExactlyWhen`).

**Property attributes** (`PropertyHelper`). `verifyProperty` finds out about attributes
by enumerating, writing and deleting. The model keeps the own properties and their order
of creation. Its contract states the verdict, the properties and the order for every
call, including the failing call that has already deleted the property and the restoring
step that throws on a non-extensible object. `IsWritable` tells when its probe stays behind.

**Power-of-five tables** (`Ryu`). All statements hold for every exponent. The script's
introduction and docstrings give 126-bit entries and 2^125 as the first one; the code
and its spot checks give 125 bits and 2^124, and the model follows the code
(`Pow5EntryRange`, `SpotChecks`).

**Argument factories** (`ArgFactories`), **parser** (`ExpressionParser`), **tokenizer**
(`Tokenizer`), **sums** (`Accumulate`), **time-zone names** (`TzNames`). Buffers built
along different resize routes, with the RangeErrors of arrays and buffers; a
recursive-descent parser on token arrays that may end anywhere; a maximal-munch lexer;
double sums around 2^53, on both sides of it; two name trees merged field by field and
fanned out to aliases. Integer arithmetic of doubles is rounded to nearest, ties to even,
throughout.

## Model

| member | source | states |
|---|---|---|
| JsValues.IsSameValueIsSameValue | conformance/test262-harness.ts:462-470 | the helper is SameValue: NaN is NaN, and the two zeros differ |
| JsValues.StrictEqualsMeans | conformance/test262-harness.ts:1083-1091 | `===` case by case: NaN equals nothing, the zeros are equal, objects by identity |
| JsValues.SameValueMeans | conformance/test262-harness.ts:462-470 | SameValue case by case: NaN is NaN, the zeros differ |
| DeepEqualSpec.DeepEqualEquivalence | conformance/test262-harness.ts:1043-1272 | structural equality is reflexive, symmetric and transitive on every graph |
| DeepEqualSpec.DeepEqualUnfolds | conformance/test262-harness.ts:1133-1187 | values are structurally equal exactly when they agree part by part, parts compared structurally |
| DeepEqualSpec.BisimulationIsSound | conformance/test262-harness.ts:1136 | whatever a self-consistent set of pairs relates is structurally equal, cycles included |
| DeepEqualCases.NumbersEqual | conformance/test262-harness.ts:1083-1091 | numbers, boxed or not, are equal as points of the number line, NaN with NaN, 0 with -0 |
| DeepEqualCases.PrimitivesEqual | conformance/test262-harness.ts:1083-1091 | other primitives, boxed or not, are equal when type and content are |
| DeepEqualCases.OtherLeavesEqual | conformance/test262-harness.ts:1043-1063 | undefined and null equal only themselves; no object equals a value that is none |
| DeepEqualCases.StampsEqual | conformance/test262-harness.ts:1147-1160 | dates and regular expressions are equal by tag and by primitive time value or source |
| DeepEqualCases.ArraysEqual | conformance/test262-harness.ts:1189-1195 | array-likes are equal by tag, length and elements in order |
| DeepEqualCases.StructuresEqual | conformance/test262-harness.ts:1197-1216 | structural objects are equal by tag, key set, properties and iteration |
| DeepEqualCases.ContainersEqual | conformance/test262-harness.ts:1218-1246 | Maps and Sets are equal by tag and iteration; other containers only to themselves |
| DeepEqualCases.KindsDiffer | conformance/test262-harness.ts:1133-1187 | objects of different kinds are never equal |
| DeepEqual.ComparePrimitive | conformance/test262-harness.ts:1083-1091 | boxed and unboxed primitives are equal up to the sign of zero, NaN equal to NaN |
| DeepEqual.ComparePrimPair | conformance/test262-harness.ts:1095-1098 | two probes are equal when both are primitive and equal as primitives |
| DeepEqual.Cache.Get | conformance/test262-harness.ts:1249-1257 | the entry of the pair in either order, or a miss |
| DeepEqual.Cache.Set | conformance/test262-harness.ts:1259-1272 | the verdict is entered for both orders and no other entry changes |
| DeepEqual.Compare | conformance/test262-harness.ts:1043-1063 | EQUAL adds only pairs that agree by the final cache; NOT_EQUAL comes with a separating depth |
| DeepEqual.CompareObject | conformance/test262-harness.ts:1133-1187 | the same for objects, and which entry each exit leaves: EQUAL at the stale exits, the verdict elsewhere |
| DeepEqual.CompareArrayLike | conformance/test262-harness.ts:1189-1195 | element by element, with the same guarantees |
| DeepEqual.CompareStructural | conformance/test262-harness.ts:1197-1216 | same key set, equal properties and equal iterations, whatever the for-in order |
| DeepEqual.CompareProperties | conformance/test262-harness.ts:1205-1209 | walking the sorted keys in step compares every property |
| DeepEqual.CompareIterable | conformance/test262-harness.ts:1218-1246 | both iterations yield equal values and end together |
| DeepEqual.CompareFresh | conformance/test262-harness.ts:1033-1041 | over a fresh cache the verdict is EQUAL exactly for structurally equal values |
| DeepEqual.CompareThenRecall | conformance/test262-harness.ts:1133-1187 | the cache contradicts the verdict afterwards exactly when the comparison left through a stale exit |
| DeepEqual.StaleEntryExists | conformance/test262-harness.ts:1147-1152 | such a pair exists |
| SortedKeys.SortedUnique | conformance/test262-harness.ts:1203-1204 | sorted key lists with the same keys are the same list |
| SortedKeys.BeforeMeans | scripts/gen_tz_names.py:126 | the order of names: the first differing character decides, a prefix comes first |
| NativeFunctionProofs.AcceptsExactlyTheLanguage | conformance/test262-harness.ts:1479-1501 | the scan accepts a text if and only if it renders a well-formed derivation |
| NativeFunctionProofs.RenderingAccepted | conformance/test262-harness.ts:1320-1322 | every rendering is accepted: any accessor, name, balanced parameters, white space and comments |
| NativeFunctionProofs.AcceptedParse | conformance/test262-harness.ts:1479-1501 | whatever is accepted has a derivation |
| NativeFunctionProofs.WordReads | conformance/test262-harness.ts:1411-1413 | a word token is the whole identifier, never a proper prefix of one |
| NativeFunctionProofs.StumbleReads | conformance/test262-harness.ts:1449-1451 | bracketed text is read to the matching closer and no further, strings and comments skipped |
| NativeFunctionProofs.StumbleParse | conformance/test262-harness.ts:1452-1475 | what was read up to the closer is a list of items whose nesting first reaches zero there |
| NativeFunctionProofs.BlankSkipped | conformance/test262-harness.ts:1354-1387 | any sequence of white space and closed comments is skipped |
| NativeFunctionProofs.BlankParse | conformance/test262-harness.ts:1354-1387 | what is skipped is white space and comments, and only the last line comment may lack its terminator |
| NativeFunctionProofs.LiteralSkipped | conformance/test262-harness.ts:1431-1448 | a string literal without line terminator or unescaped quote is skipped to its closing quote |
| NativeFunctionStrings.LiteralEnds | conformance/test262-harness.ts:1431-1448 | on every text: no end in ECMAScript means none for the scanner; otherwise both end together exactly when the literal has no line terminator and no backslash before its closing quote |
| NativeFunctionStrings.EndsTogether | conformance/test262-harness.ts:1436-1442 | the same from any unit on; when they do not end together and no quote follows, the scanner finds no end |
| NativeFunctionStrings.UnreadableRunsOn | conformance/test262-harness.ts:1438 | every literal that ends in an escaped backslash is read past its closing quote, whatever follows without that quote |
| NativeFunctionStrings.EvenRuns | conformance/test262-harness.ts:1438 | the runs of backslashes that are literals are the even ones, and only the empty one is read |
| NativeFunctionStrings.LiteralParameter | conformance/test262-harness.ts:1479-1501 | a function text with one literal as its parameters is in the language exactly when the literal is one the scanner can read |
| NativeFunctionStrings.ValidateWithLiteral | conformance/test262-harness.ts:1479-1501 | the validator accepts exactly those |
| NativeFunctionStrings.EsUnits | conformance/test262-harness.ts:1431-1448 | the ECMAScript end of a literal unit by unit, with line continuations |
| NativeFunctionNames.CodeUnits | conformance/test262-harness.ts:1342-1353 | the character classes and keywords, unit by unit |
| NativeFunctionNames.NameIsWord | conformance/test262-harness.ts:1390-1413 | in place of the name, a word is accepted exactly when it has a-z, A-Z, 0-9, `_`, `$` only and starts with no digit |
| NativeFunctionNames.SeparatorIsBlank | conformance/test262-harness.ts:1342-1347 | one unit between `function` and a name is accepted exactly when it is one of the six spaces or four line terminators |
| NativeFunctionNames.AccessorIsGetOrSet | conformance/test262-harness.ts:1482-1485 | two names in a row are accepted exactly when the first is `get` or `set` |
| NativeFunctionNames.NoNameNeeded | conformance/test262-harness.ts:1486-1490 | the name may be missing |
| NativeFunctionNames.BlockCommentBefore | conformance/test262-harness.ts:1354-1387 | a block comment separates like a space |
| NativeFunctionNames.LineCommentBefore | conformance/test262-harness.ts:1354-1387 | a line comment ends exactly at the four line terminators |
| NativeFunctionNames.ParamsAreClosed | conformance/test262-harness.ts:1452-1475 | text without quotes and slashes is accepted as parameters exactly when its parentheses are closed |
| NativeFunctionNames.ComputedName | conformance/test262-harness.ts:1486-1490 | such text with closed brackets is accepted as a computed name |
| NativeFunctionNames.ValidateNamed | conformance/test262-harness.ts:1479-1501 | the validator accepts exactly the names, `atan2` among them |
| NativeFunctionNames.ValidateParams | conformance/test262-harness.ts:1479-1501 | the validator accepts exactly the closed parameters |
| NativeFunctionProofs.SkipBlankIdempotent | conformance/test262-harness.ts:1377-1380 | skipping twice is skipping once, and the error flag goes up exactly at an unclosed comment |
| NativeFunctionScan.Scan.EatWhitespace | conformance/test262-harness.ts:1354-1387 | the cursor moves past white space and comments, never back, never past the end |
| NativeFunctionScan.Scan.PeekIdentifier | conformance/test262-harness.ts:1390-1402 | the longest identifier at the cursor, not consumed |
| NativeFunctionScan.Scan.EatIdentifier | conformance/test262-harness.ts:1403-1410 | consumes an identifier if there is one |
| NativeFunctionScan.Scan.EatWord | conformance/test262-harness.ts:1414-1420 | consumes the word if the whole identifier is that word |
| NativeFunctionScan.Scan.EatPunct | conformance/test262-harness.ts:1422-1429 | consumes one unit of punctuation if it is next |
| NativeFunctionScan.Scan.EatStringLiteral | conformance/test262-harness.ts:1431-1448 | leaves the cursor on the closing quote, or raises the flag |
| NativeFunctionScan.Scan.StumbleUntil | conformance/test262-harness.ts:1452-1475 | succeeds exactly when a closer brings the nesting to zero, just past that closer; the cursor never goes back and passes the end, by one, only on failure |
| NativeFunctionScan.ValidateNativeFunctionSource | conformance/test262-harness.ts:1479-1501 | the validator accepts exactly the NativeFunction language |
| Float64.RoundNearest | conformance/cases/accum-nested-sum-001.ts:3-4 | no double is nearer to the exact integer than the rounded one |
| Float64.TiesToEven | conformance/cases/accum-header-sum-001.ts:2-3 | halfway cases go to the even significand |
| Float64.RoundKeepsComparison | conformance/test262-harness.ts:2221-2222 | comparing a rounded count with a bound below 2^53 gives the exact answer |
| Ulp.SizeStrictlyMonotone | conformance/test262-harness.ts:2169-2172 | the order of magnitudes is the order of the values they encode |
| Ulp.SizeValues | conformance/test262-harness.ts:2169-2172 | the scale of the encoded values: 1, 2 and the largest double as multiples of the smallest |
| Ulp.DistanceCountsDoubles | conformance/test262-harness.ts:2169-2172 | for one sign the pattern distance is zero, or one more than the number of doubles strictly between |
| Ulp.DistanceAcrossZero | conformance/test262-harness.ts:2218-2219 | for different signs the distance exceeds 2^52 |
| Ulp.Prober.StoreDouble | conformance/test262-harness.ts:2174-2175 | a stored double occupies its two words in the platform's order and leaves the other two |
| Ulp.Prober.UlpDiff | conformance/test262-harness.ts:2173-2179 | once the byte order is settled, the rounded pattern distance, on either platform |
| Ulp.Prober.constructor | conformance/test262-harness.ts:2164-2184 | the probe settles the byte order on either platform |
| Ulp.Prober.LoadTimeChecks | conformance/test262-harness.ts:2197-2200 | the four checks at load time succeed |
| Ulp.Prober.AssertNear | conformance/test262-harness.ts:2202-2227 | for every operand: with an exact tolerance, succeeds exactly when the operands are near by counted steps; with any other, when the rounded distance is within it |
| Ulp.NotFiniteMeans | conformance/test262-harness.ts:2203-2216 | NaN is near nothing, nothing is near NaN or an infinity, each infinity is near the largest value of its sign alone |
| Ulp.ZeroTarget | conformance/test262-harness.ts:2218-2220 | the distance from a zero is the magnitude, whatever the signs |
| Ulp.VerdictExactlyWhen | conformance/test262-harness.ts:2221-2222 | the rounded comparison is right for all finite operands exactly for a tolerance below 2^53, twice an odd number below 2^54, or at least the largest distance |
| Ulp.WronglyAccepted | conformance/test262-harness.ts:2221-2222 | for any other tolerance there is a pair that passes without being near |
| Ulp.NearAlwaysPasses | conformance/test262-harness.ts:2221-2222 | near operands are never rejected, whatever the tolerance |
| Ulp.LargeToleranceAccepts | conformance/test262-harness.ts:2221-2222 | a pair 2^53 + 1 steps apart passes within 2^53 |
| PropertyHelper.JsObject.IsConfigurable | conformance/test262-harness.ts:472-484 | answers the attribute; a configurable property is gone afterwards |
| PropertyHelper.JsObject.IsEnumerable | conformance/test262-harness.ts:486-511 | answers whether there is an own enumerable property |
| PropertyHelper.JsObject.IsWritable | conformance/test262-harness.ts:513-549 | answer, TypeError, properties and order for every value and property to read back; with neither given, whether an assignment takes effect, and the object as before |
| PropertyHelper.JsObject.CollectFailures | conformance/test262-harness.ts:577-608 | there is a failure exactly when a supplied attribute differs; only the deletion probe changes the object |
| PropertyHelper.MatchesMeans | conformance/test262-harness.ts:577-601 | a descriptor matches when no supplied attribute differs, by SameValue, from the property's |
| PropertyHelper.JsObject.VerifyProperty | conformance/test262-harness.ts:551-619 | throws Test262Error exactly when some supplied attribute differs; thrown error, properties and order for every descriptor, with and without restoring |
| PropertyHelper.JsObject.VerifyAll | conformance/test262-harness.ts:551-619 | a run of restoring checks passes exactly when all match the initial properties, which it leaves unchanged |
| PropertyHelper.JsObject.VerifyTwice | conformance/test262-harness.ts:602-608 | without restoring, a check that deletes the property fails when repeated |
| Ryu.Pow5EntryRange | scripts/gen_ryu_tables.py:49-77 | every entry has exactly 125 bits |
| Ryu.Pow5EntryExact | scripts/gen_ryu_tables.py:56-58 | scaled back, an entry is 5^i exactly when no bits were shifted out |
| Ryu.InverseEntryRange | scripts/gen_ryu_tables.py:80-96 | every reciprocal entry lies above 2^124 and at most at 2^125, and when it reaches it |
| Ryu.InverseError | scripts/gen_ryu_tables.py:80-96 | an entry times 5^i exceeds the power of two by less than 5^i |
| Ryu.DivisionByMultiplication | scripts/gen_ryu_tables.py:85-87 | for every exponent and every m up to 2^124, multiply and shift is floor division by 5^i |
| Ryu.DivisionExactlyWhen | scripts/gen_ryu_tables.py:85-87 | for any m, multiply and shift is exact if and only if the accumulated error does not carry |
| Ryu.EntriesReciprocal | scripts/gen_ryu_tables.py:49-96 | the product of the two entries for one exponent is within 2^125 of 2^249 |
| Ryu.SplitRoundTrip | scripts/gen_ryu_tables.py:99-102 | the two words give the value back exactly for 128-bit unsigned values |
| Ryu.EntriesStored | scripts/gen_ryu_tables.py:99-102 | both tables are stored without loss |
| Ryu.SpotChecks | scripts/gen_ryu_tables.py:111-135 | the script's spot checks hold |
| ArgFactories.MakeArray | conformance/test262-harness.ts:1663-1673 | a count in range becomes that many elements, rounded up, or a RangeError from 2^32 on; anything else comes back |
| ArgFactories.ArrayBuffer.CopyFrom | conformance/test262-harness.ts:1699-1704 | the front becomes the source's bytes and the rest stays |
| ArgFactories.MakeArrayBuffer | conformance/test262-harness.ts:1693-1697 | the concatenated element bytes, or the RangeError |
| ArgFactories.MakeResizableArrayBuffer | conformance/test262-harness.ts:1706-1718 | the same bytes for a list; zeros for a count, or a RangeError when its bytes, doubled, reach 2^53 |
| ArgFactories.MakeGrownArrayBuffer | conformance/test262-harness.ts:1720-1737 | allocating half, growing and copying gives what the plain factory gives |
| ArgFactories.MakeShrunkArrayBuffer | conformance/test262-harness.ts:1739-1754 | allocating double, copying and shrinking gives what the plain factory gives, unless doubling throws |
| ArgFactories.ListBytes | conformance/test262-harness.ts:1693-1754 | for a list below the array limit all four factories make the elements' bytes, in order |
| ArgFactories.PlainCount | conformance/test262-harness.ts:1663-1697 | a count becomes zero bytes of whole elements, rounded up, or an exception, or comes back, by its size |
| ArgFactories.ResizableCount | conformance/test262-harness.ts:1706-1711 | the resizable factory makes zero bytes, rounded down, or throws, or gives the count back |
| ArgFactories.ResizedCount | conformance/test262-harness.ts:1720-1754 | the grown and the shrunk factory make what the plain one makes, in a smaller range |
| ArgFactories.FactoriesAgree | conformance/test262-harness.ts:1693-1754 | the four factories make equal bytes, or all throw, exactly for lists, arguments none accepts, whole counts below 2^32 in range, and counts beyond every limit |
| ExpressionParser.Parser.Factor | conformance/cases/arr-class-elem-recv-parser-001.ts:67-72 | the token's value, or zero, or an exception with the cursor moved |
| ExpressionParser.Parser.Term | conformance/cases/arr-class-elem-recv-parser-001.ts:59-66 | the product up to the first operator that is not STAR |
| ExpressionParser.Parser.Expr | conformance/cases/arr-class-elem-recv-parser-001.ts:51-58 | on any array: the value and the cursor on the first non-operator, or an exception past the end |
| ExpressionParser.Parser.Count | conformance/cases/arr-class-elem-recv-parser-001.ts:39-50 | the distance to END, negated when the array ends first; 0 from a cursor past the array |
| ExpressionParser.SumIsExact | conformance/cases/arr-class-elem-recv-parser-001.ts:51-72 | for factors of any sign: while the products without sign add up to at most 2^53, the value is the integer sum of products |
| ExpressionParser.ValueIsExact | conformance/cases/arr-class-elem-recv-parser-001.ts:51-72 | without negative factors, a value up to 2^53 is exact |
| ExpressionParser.LastOperation | conformance/cases/arr-class-elem-recv-parser-001.ts:51-66 | sums and products are taken from the left, each rounded once |
| ExpressionParser.SumRead | conformance/cases/arr-class-elem-recv-parser-001.ts:51-72 | tokens that render a sum of products denote it, up to the token that follows |
| ExpressionParser.ParseRendered | conformance/cases/arr-class-elem-recv-parser-001.ts:83-87 | parsing a rendering in any context gives its value and leaves the cursor on the follower |
| ExpressionParser.ParseOne | conformance/cases/arr-class-elem-recv-parser-001.ts:67-72 | a token of kind 0 stands for its value, any other for zero |
| ExpressionParser.ParseExample | conformance/cases/arr-class-elem-recv-parser-001.ts:83-87 | 2 + 3 * 4 + 5 is 19, and the cursor stands on the end |
| Tokenizer.Tokenize | conformance/cases/arr-inline-class-001.ts:14-37 | the nested loops put out the lexer's tokens on every text |
| Tokenizer.UnitsMean | conformance/cases/arr-inline-class-001.ts:14-37 | 32 is skipped, a unit that is no digit is a token of kind 1, the end has kind 9 |
| Tokenizer.DigitsMean | conformance/cases/arr-inline-class-001.ts:21-30 | a run of 48-57 is one token of kind 0 |
| Tokenizer.LexRendered | conformance/cases/arr-inline-class-001.ts:14-37 | a layout is read lexeme by lexeme, with one end token |
| Tokenizer.EveryTextIsALayout | conformance/cases/arr-inline-class-001.ts:14-37 | every text is the rendering of a layout |
| Tokenizer.WrittenReadBack | conformance/cases/arr-inline-class-001.ts:14-37 | numerals below 2^54 and marks, written with spaces, are read back, each number rounded to a double |
| Tokenizer.ReadBackRounds | conformance/cases/arr-inline-class-001.ts:21-29 | below 2^54 the digits, added up with rounding, make the number rounded once |
| Tokenizer.ReadBackExactly | conformance/cases/arr-inline-class-001.ts:21-29 | below 2^55 a numeral is read back exactly when its number is a double and, from 2^54 on, not an odd multiple of four that ends in 2 or 6 |
| Tokenizer.NumeralsMisread | conformance/cases/arr-inline-class-001.ts:26 | 2^53 + 1 is read as 2^53; the double 2^54 + 12 is not read back |
| Accumulate.ArgStart | conformance/cases/accum-header-sum-001.ts:13-18 | the header runs once more than the body and the last step rounds to 2^53, for every count below 2^53 |
| Accumulate.WhileTest | conformance/cases/accum-header-sum-001.ts:21-26 | for every count at which it ends: 2^53 + 2 exactly when 3n is a double up to 2^54 - 1, or is 2^54 - 1; and the answer in all other cases |
| Accumulate.RoundingsCancel | conformance/cases/accum-header-sum-001.ts:21-26 | at 3n = 2^54 - 1, not a double, the answer is still 2^53 + 2 |
| Accumulate.Large | conformance/cases/accum-nested-sum-001.ts:48-54 | the step added, with rounding, once for each counter whose rounded square is within the bound |
| Accumulate.LargeIsExact | conformance/cases/accum-nested-sum-001.ts:48-54 | while isqrt(n) * step is within 2^53 of zero, it is the answer exactly when the step is zero or the next square does not round down to n |
| Accumulate.LargeCountsOneMore | conformance/cases/accum-nested-sum-001.ts:48-54 | for the double below the square of 94906267 the loop runs once too often |
| Accumulate.LargeRounds | conformance/cases/accum-nested-sum-001.ts:48-54 | three steps of 2^52 + 1 round to 13510798882111492 |
| Accumulate.RowValue | conformance/cases/accum-nested-sum-001.ts:9-45 | the value of a row of each program in closed form, for `skipping` by the divisors of the row |
| Accumulate.RowBound | conformance/cases/accum-nested-sum-001.ts:9-45 | with r the integer square root, a row of `carried` and `skipping` is at most r(r+1)/2, of `perRow` twice that; none is negative, except that of `skipping`, which is at least -r |
| Accumulate.RowsBound | conformance/cases/accum-nested-sum-001.ts:9-45 | the row sums up to n stay within n(n+1)/2 of zero, those of `perRow` within n(n+1) |
| Accumulate.RowsPerRow | conformance/cases/accum-nested-sum-001.ts:9-19 | no partial sum rounds while n(n+1) is at most 2^53 |
| Accumulate.RowsCarried | conformance/cases/accum-nested-sum-001.ts:22-30 | no partial sum rounds while n(n+1)/2 is at most 2^53 |
| Accumulate.RowsSkipping | conformance/cases/accum-nested-sum-001.ts:33-45 | no partial sum rounds while n(n+1)/2 is at most 2^53 |
| TzNames.JoinInjective | scripts/gen_tz_names.py:53 | different paths of non-empty, slash-free keys have different names |
| TzNames.JoinMeans | scripts/gen_tz_names.py:53 | the keys in the order of the path, with slashes between |
| TzNames.WalkUpdates | scripts/gen_tz_names.py:46-56 | the entry under a path's name is updated by the item at that path and nothing else |
| TzNames.WalkElsewhere | scripts/gen_tz_names.py:88-98 | entries under other names stay |
| TzNames.LastStretch | scripts/gen_tz_names.py:46-54 | a zone has the non-empty name of the last stretch of its history, if that has one |
| TzNames.MetazoneRow | scripts/gen_tz_names.py:75-82 | a row for a non-empty standard name, with the daylight name or the standard name again |
| TzNames.RowAfterOverrides | scripts/gen_tz_names.py:88-98 | a field the override supplies is the row's, a field it omits is the one before, and without a standard name nothing changes |
| TzNames.ZoneNames | scripts/gen_tz_names.py:69-100 | a zone's row field by field, from the last stretch of its history, its metazone's names and its own overrides |
| TzNames.FanKeepsRows | scripts/gen_tz_names.py:105-112 | for any groups, rows are kept and every new row copies an old one |
| TzNames.FanOutCovers | scripts/gen_tz_names.py:105-112 | for disjoint groups, exactly the aliases of a group with a named member are added, with the first named member's row |
| TzNames.FanOutOrderIndependent | scripts/gen_tz_names.py:105-112 | the order of disjoint groups does not matter |
| TzNames.FanOutIdempotent | scripts/gen_tz_names.py:105-112 | fanning out disjoint groups twice is fanning out once |
| TzNames.OverlapMatters | scripts/gen_tz_names.py:105-112 | two groups that share a name, each with a name of its own, break both, for all rows that name some of the second and none of the first |
| TzNames.NameTable.WalkZones | scripts/gen_tz_names.py:46-56 | fills the dictionary as the walk does, or fails on an empty history |
| TzNames.NameTable.NameZones | scripts/gen_tz_names.py:75-82 | a row for every zone whose metazone has a standard name |
| TzNames.NameTable.WalkOverrides | scripts/gen_tz_names.py:88-98 | merges every override into the rows |
| TzNames.NameTable.ApplyOverrides | scripts/gen_tz_names.py:88-100 | the call at the root overrides every zone's row field by field |
| TzNames.NameTable.FanOut | scripts/gen_tz_names.py:105-112 | the alias loop |
| TzNames.NameTable.Emit | scripts/gen_tz_names.py:126-128 | the emitted keys are strictly increasing and are exactly the rows |

## Left out

- Rust compiler, runtime and allocator: their code is not part of this model.
- Object graphs: getters, proxies and iterators with effects; iteration is a fixed finite sequence per object, and the fresh entry arrays a Map yields are array-like nodes. The size of a Map or Set is the length of its iteration.
- Key order: `sort()` compares UTF-16 units; the model compares characters. No verdict depends on the order.
- Failure messages (`__t262_deFormat` and the texts of the thrown errors).
- PropertyHelper: accessor properties, symbols, arrays and integer-like names; prototypes offer data properties.
- Ulp: operands that are NaN are rejected before their pattern is stored; tolerances are real numbers, not NaN.
- Float64: does not model overflow to infinity or the sign of zero; `count()` may answer -0 where the model answers 0.
- ArgStart: the offset read from the command line is 0, here and in WhileTest; a count above 2^53 never ends.
- Large: the bound is a whole double, a fractional one acts as its whole part; from 2^106 on the loop never ends.
- `constStart`, which is `argStart` at 10, and `fractional` of the summing programs, and `weigh`, `kindAt` of the tokenizer program.
- ArgFactories: running out of memory below the limits of arrays and buffers, and the typed-array conversions, which are a parameter.
- TzNames: JSON values of other shapes than the scripts expect, and reading and printing files.
- Promise and async helpers, Temporal observers and the remaining harness helpers.
