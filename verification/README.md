# Filter compiler and hex codec of the access-control API, in Dafny

This project models two pieces of the access-control API's Java code base.

**The generic DAO's filter compiler** (`BaseDaoImpl`) turns request filters into a JPA criteria predicate:

- A filter is a list of groups. Each group is a list of conditions `(fieldName, operator, value)`.
- Blank conditions are dropped first.
- Each field name is resolved to a path, following joins for dotted names.
- Each condition becomes one atomic predicate. The operator picks the case: LIKE, LESS_EQ, BETWEEN, IN, or the default equality cascade over boolean, enum, number, date and text.
- Within a group, the predicates are folded left to right. Each one joins the accumulated tree by AND or by OR.
- `findByFilter` takes the conjunction of the group predicates.

Enum constants are looked up in a configured list of enum types.

**The hex codec of `DESUtil`:**

- `toHexString` writes bytes as lowercase two-digit hex.
- `convertHexString` reads them back, two characters at a time.

The model is purely functional:

- Every step that throws in Java is an `Err` value that aborts the whole compilation.
- The JPA criteria objects are plain data (`Criteria.Pred`).
- `Criteria.Holds` gives the predicate trees their boolean meaning.
- `Criteria.LikeMatches` gives SQL `LIKE` patterns their meaning.

The read-only environment is a parameter (`PredicateCompiler.Config`). It holds the enum registry and the system time zone.

Modules, one per file:

| module | file | what it holds |
|---|---|---|
| `Results` | `results.dfy` | `Option`, `Result`, and the fail-fast `map`/`filter` over lists |
| `JavaText` | `java_text.dfy` | case mapping, `isBlank`, substring search, `String.split` on a literal character |
| `JavaNumbers` | `java_numbers.dfy` | `NumberUtils.isCreatable`/`toInt`/`toLong`, decimal text |
| `JavaTime` | `java_time.dfy` | `yyyy-MM-dd` and `yyyy-MM-dd HH:mm:ss` parsing, `atZone` |
| `EnumRegistry` | `enum_registry.dfy` | `str2Enum`, `isEnum` |
| `Criteria` | `criteria.dfy` | paths, predicate trees, their meaning, SQL `LIKE` |
| `Filters` | `filters.dfy` | conditions, groups, operator constants |
| `PredicateCompiler` | `compiler.dfy` | `getPredicates`, `getPredicate`, `findByFilter` |
| `CompilerProperties` | `compiler_properties.dfy` | what the compiler guarantees, over all inputs |
| `HexCodec` | `hex_codec.dfy` | `toHexString`, `convertHexString` and their round trips |
| `Scenarios` | `scenarios.dfy` | concrete conditions compiled end to end |

## Model

In the table, `BaseDaoImpl.java` stands for `src/main/java/com/cfgglobal/test/dao/base/BaseDaoImpl.java` and `DESUtil.java` for `src/main/java/com/cfgglobal/common/util/DESUtil.java`; the source cells give the full paths.

| member | source | states |
|---|---|---|
| Results.MapAll | src/main/java/com/cfgglobal/test/dao/base/BaseDaoImpl.java:185 | Mapping a throwing function over a list succeeds iff it succeeds on every element, with the results in order. Otherwise it fails with the error of the first failing element. |
| Results.FilterAll | src/main/java/com/cfgglobal/test/dao/base/BaseDaoImpl.java:95-106 | A throwing filter succeeds iff the test succeeds on every element. It then keeps, in order, only accepted elements (a subsequence) and every accepted element. Otherwise it fails with the first error. |
| Results.FilterAllCounts | src/main/java/com/cfgglobal/test/dao/base/BaseDaoImpl.java:95-106 | A successful filter keeps each accepted element exactly as often as it occurs, and no rejected one, so repeated conditions all survive. |
| JavaText.DropTrailingEmpty | src/main/java/com/cfgglobal/test/dao/base/BaseDaoImpl.java:110 | `split` drops trailing empty strings. The result is a prefix of the pieces, everything dropped is empty, and the last piece kept is non-empty. |
| JavaText.JavaSplitShape | src/main/java/com/cfgglobal/test/dao/base/BaseDaoImpl.java:110 | A text with no dot splits into itself. Otherwise no piece contains a dot and the last piece is non-empty. |
| JavaText.SplitJoin | src/main/java/com/cfgglobal/test/dao/base/BaseDaoImpl.java:110 | Splitting the dot-joined text of non-empty, dot-free segments gives the segments back. |
| JavaNumbers.ToInt | src/main/java/com/cfgglobal/test/dao/base/BaseDaoImpl.java:164 | `toInt` always yields a 32-bit value. |
| JavaNumbers.ToLong | src/main/java/com/cfgglobal/test/dao/base/BaseDaoImpl.java:196 | `toLong` always yields a 64-bit value. |
| JavaNumbers.ToIntDecimal | src/main/java/com/cfgglobal/test/dao/base/BaseDaoImpl.java:164 | `toInt` reads back the decimal text of every 32-bit integer. |
| JavaNumbers.ToLongDecimal | src/main/java/com/cfgglobal/test/dao/base/BaseDaoImpl.java:196 | `toLong` reads back the decimal text of every 64-bit integer. |
| JavaNumbers.DecimalTextIsCreatable | src/main/java/com/cfgglobal/test/dao/base/BaseDaoImpl.java:162 | The decimal text of every integer passes `isCreatable`. |
| JavaNumbers.LeadingZeroIsOctal | src/main/java/com/cfgglobal/test/dao/base/BaseDaoImpl.java:195-196 | A leading-zero integer passes `isCreatable` iff its later digits are all octal, although `toLong` reads it as decimal (0 when too large). |
| JavaNumbers.FractionParsesAsZero | src/main/java/com/cfgglobal/test/dao/base/BaseDaoImpl.java:162-164 | A literal with a fraction passes `isCreatable`, yet `toInt` and `toLong` turn it into 0. |
| JavaTime.ParseDate | src/main/java/com/cfgglobal/test/dao/base/BaseDaoImpl.java:198 | A parsed `yyyy-MM-dd` date is a valid calendar date, and a failure carries the rejected text. |
| JavaTime.ParseFormatDate | src/main/java/com/cfgglobal/test/dao/base/BaseDaoImpl.java:198 | Every valid date with a four-digit year parses back from its `yyyy-MM-dd` text. |
| JavaTime.MidnightSuffix | src/main/java/com/cfgglobal/test/dao/base/BaseDaoImpl.java:167-171 | Text plus ` 00:00:00` parses under `yyyy-MM-dd HH:mm:ss` iff the text parses as a date, and then yields the start of that day. Otherwise the error carries the suffixed text. |
| JavaTime.DateTextIsNotNumber | src/main/java/com/cfgglobal/test/dao/base/BaseDaoImpl.java:195-198 | A `yyyy-MM-dd` text is never a number literal and contains a dash, so the cascade sends it to date parsing. |
| EnumRegistry.Str2Enum | src/main/java/com/cfgglobal/test/dao/base/BaseDaoImpl.java:44-50 | A name resolves iff some configured type declares it. The result has that name and belongs to the first declaring type in configured order. |
| EnumRegistry.Str2EnumFirstWins | src/main/java/com/cfgglobal/test/dao/base/BaseDaoImpl.java:44-50 | The first declaring type alone decides the constant: no other configured type can change it. |
| Criteria.SingletonMeansPart | src/main/java/com/cfgglobal/test/dao/base/BaseDaoImpl.java:124-128 | `cb.and(p)` and `cb.or(p)` each mean `p`. |
| Criteria.SubstringPattern | src/main/java/com/cfgglobal/test/dao/base/BaseDaoImpl.java:150 | For wildcard-free `s`, the pattern `%s%` matches a text iff `s` occurs in it. |
| PredicateCompiler.GetPredicates | src/main/java/com/cfgglobal/test/dao/base/BaseDaoImpl.java:91-139 | At most one predicate per group, and none when every group is the EMPTY sentinel. |
| CompilerProperties.ResolvePathShape | src/main/java/com/cfgglobal/test/dao/base/BaseDaoImpl.java:108-119 | Joins arise iff the name splits into two or more segments. Then the hops are the segments but the last, in order, and the terminal is the last one (non-empty, no dots). Otherwise the whole name is read on the root. |
| CompilerProperties.ResolveDottedName | src/main/java/com/cfgglobal/test/dao/base/BaseDaoImpl.java:110-119 | A dotted name of `n` clean segments reads `n - 1` join hops and a terminal, or one root field when `n = 1`. |
| CompilerProperties.SurvivalRule | src/main/java/com/cfgglobal/test/dao/base/BaseDaoImpl.java:96-106 | With operator exactly `BETWEEN`, the blank filter throws unless the value is an array of at least two values, and keeps the condition iff both bounds are non-blank. Any other condition never throws and is dropped iff its value is a blank scalar. |
| CompilerProperties.BlankGroupContributesNothing | src/main/java/com/cfgglobal/test/dao/base/BaseDaoImpl.java:96-130 | A group whose conditions all carry blank scalar values, under any operator other than exactly `BETWEEN`, contributes no predicate. |
| CompilerProperties.FoldFromSnoc | src/main/java/com/cfgglobal/test/dao/base/BaseDaoImpl.java:130-137 | Extending the fold by one predicate joins it to the accumulated tree under its own operator. |
| CompilerProperties.ReduceSnoc | src/main/java/com/cfgglobal/test/dao/base/BaseDaoImpl.java:130-137 | The group fold is left-associative. |
| CompilerProperties.ReduceAllAnd | src/main/java/com/cfgglobal/test/dao/base/BaseDaoImpl.java:124-137 | If every later predicate reports AND, the group holds iff all its predicates hold. |
| CompilerProperties.ReduceAllOr | src/main/java/com/cfgglobal/test/dao/base/BaseDaoImpl.java:124-137 | If every later predicate reports OR, the group holds iff some predicate holds. |
| CompilerProperties.ConditionRelation | src/main/java/com/cfgglobal/test/dao/base/BaseDaoImpl.java:120-128 | A condition joins by AND iff its rewritten operator equals `AND` ignoring case. Its wrapper holds one part, the predicate `getPredicate` built, and means exactly that predicate. |
| CompilerProperties.ComparisonOperatorsJoinByOr | src/main/java/com/cfgglobal/test/dao/base/BaseDaoImpl.java:124-128 | A condition whose operator is a comparison operator, in any case, joins its group by OR. |
| CompilerProperties.ArrayTextIsNotEnum | src/main/java/com/cfgglobal/test/dao/base/BaseDaoImpl.java:144-145 | The text of an array value never names an enum constant. |
| CompilerProperties.OperatorCaseIgnored | src/main/java/com/cfgglobal/test/dao/base/BaseDaoImpl.java:148 | Dispatch gives the same predicate or error as with the operator upper-cased. |
| CompilerProperties.EnumValueComparedForEquality | src/main/java/com/cfgglobal/test/dao/base/BaseDaoImpl.java:145-147 | A value naming an enum constant rewrites the operator to EQ under every operator. The condition then joins by OR and compiles to equality with the first declaring type's constant (or boolean equality for `true`/`false`). |
| CompilerProperties.OtherOperatorsCompareForEquality | src/main/java/com/cfgglobal/test/dao/base/BaseDaoImpl.java:190-201 | Any unrecognised operator (and any operator on an enum-named value) falls to the equality cascade. |
| CompilerProperties.LikeMatchesSubstrings | src/main/java/com/cfgglobal/test/dao/base/BaseDaoImpl.java:149-151 | LIKE compiles to `%s%` on the raw text of any value that names no enum constant, array text included, with nothing escaped. When `s` has no `%` or `_`, the pattern matches exactly the texts containing `s`. |
| CompilerProperties.LessEqIsStrictTextComparison | src/main/java/com/cfgglobal/test/dao/base/BaseDaoImpl.java:152-154 | LESS_EQ compiles to a strict less-than on the raw text of the value. |
| CompilerProperties.EqualityCascade | src/main/java/com/cfgglobal/test/dao/base/BaseDaoImpl.java:190-201 | Each kind of equality arises iff its test is the first to pass: boolean, enum, number, dash (date, or a parse error), plain text. States each comparand. |
| CompilerProperties.IntegerTextComparesAsNumber | src/main/java/com/cfgglobal/test/dao/base/BaseDaoImpl.java:195-196 | A 64-bit integer's decimal text (negative included) compares as that number. |
| CompilerProperties.DateTextComparesAsDate | src/main/java/com/cfgglobal/test/dao/base/BaseDaoImpl.java:197-198 | A `yyyy-MM-dd` text compares as that date. |
| CompilerProperties.ArrayValueNotRewritten | src/main/java/com/cfgglobal/test/dao/base/BaseDaoImpl.java:144-148 | An array-valued condition is never rewritten, so its operator alone picks the case. |
| CompilerProperties.BetweenRule | src/main/java/com/cfgglobal/test/dao/base/BaseDaoImpl.java:155-175 | BETWEEN covers every case. A scalar that names no enum constant fails as a non-array, and a short array fails at the missing index. A numeric lower bound gives an int range over `toInt` of both bounds, with 0 for a non-integer upper bound. Otherwise the range spans the starts of the two days in the zone, or fails on the first bound that does not parse. |
| CompilerProperties.NumericBetween | src/main/java/com/cfgglobal/test/dao/base/BaseDaoImpl.java:162-164 | Two 32-bit integers in decimal give the range between exactly those numbers. |
| CompilerProperties.DateBetween | src/main/java/com/cfgglobal/test/dao/base/BaseDaoImpl.java:165-173 | Two `yyyy-MM-dd` dates give the range between the starts of those days in the configured zone. |
| CompilerProperties.ResolveAll | src/main/java/com/cfgglobal/test/dao/base/BaseDaoImpl.java:185 | Resolving an IN list succeeds iff every name is an enum constant. The constants are in list order, and as a set they are exactly the constants named. Otherwise it fails on the first unresolvable name. |
| CompilerProperties.InOverEnumConstants | src/main/java/com/cfgglobal/test/dao/base/BaseDaoImpl.java:184-185 | An IN array whose first element names a constant compiles to membership in the resolved constants, or fails as resolution does. |
| CompilerProperties.InOverRawValues | src/main/java/com/cfgglobal/test/dao/base/BaseDaoImpl.java:176-189 | IN over non-enum values is membership in the raw values. A scalar is a one-element list, and an empty array fails at index 0. An enum-named scalar is compiled as EQ instead. |
| CompilerProperties.GetPredicatesAppend | src/main/java/com/cfgglobal/test/dao/base/BaseDaoImpl.java:91-139 | Compiling a concatenation of filter lists means compiling each part in turn: the first error wins, otherwise the predicates concatenate. |
| CompilerProperties.FailingGroupAbortsAll | src/main/java/com/cfgglobal/test/dao/base/BaseDaoImpl.java:91-139 | One failing group fails the whole `findByFilter` with its error. No partial predicate is returned. |
| CompilerProperties.SkipEmpty | src/main/java/com/cfgglobal/test/dao/base/BaseDaoImpl.java:93 | A leading EMPTY sentinel is skipped. |
| CompilerProperties.EmptySentinelIgnored | src/main/java/com/cfgglobal/test/dao/base/BaseDaoImpl.java:93 | The EMPTY sentinel changes nothing wherever it stands. |
| CompilerProperties.FindByFilterMeaning | src/main/java/com/cfgglobal/test/dao/base/BaseDaoImpl.java:56-59 | The query restriction holds iff every group predicate holds, and always holds when there is none. |
| CompilerProperties.BlankFiltersMatchEverything | src/main/java/com/cfgglobal/test/dao/base/BaseDaoImpl.java:91-139 | Filters with only EMPTY sentinels, or blank scalar values under any operator other than exactly `BETWEEN`, compile to the empty conjunction, which every row satisfies. |
| HexCodec.ParseRadix16 | src/main/java/com/cfgglobal/common/util/DESUtil.java:65 | `parseInt(_, 16)` results fit in an `int`, and a failure carries the text. |
| HexCodec.ToHexText | src/main/java/com/cfgglobal/common/util/DESUtil.java:81 | `Integer.toHexString` writes lowercase hex digits whose value is the number, without a leading zero, and one digit exactly below 16. |
| HexCodec.PaddedHexTextIsByteHex | src/main/java/com/cfgglobal/common/util/DESUtil.java:81-83 | `Integer.toHexString(0xff & b)` padded with one `0` is always exactly two digits: the high nibble, then the low nibble. |
| HexCodec.EncodeHex | src/main/java/com/cfgglobal/common/util/DESUtil.java:78-88 | The hex text is twice as long as the bytes. |
| HexCodec.EncodeHexPairs | src/main/java/com/cfgglobal/common/util/DESUtil.java:78-88 | Byte `i` sits at positions `2i` and `2i + 1`, high nibble first. |
| HexCodec.EncodeHexLowercase | src/main/java/com/cfgglobal/common/util/DESUtil.java:81 | The hex text uses lowercase hex digits only. |
| HexCodec.ToHexString | src/main/java/com/cfgglobal/common/util/DESUtil.java:78-88 | The loop builds exactly the encoding. |
| HexCodec.PairsCover | src/main/java/com/cfgglobal/common/util/DESUtil.java:62-64 | The slices, laid end to end, give back the text in order with no gap or overlap. Only a trailing odd character is left out. |
| HexCodec.DecodeByteSlice | src/main/java/com/cfgglobal/common/util/DESUtil.java:65-66 | A slice decodes iff it is two hex digits (either case) or a sign and one hex digit. Two digits give `16a + b`, `+c` gives `c`, and `-c` gives `(256 - c) % 256` after the byte cast. Any other slice is itself the error. |
| HexCodec.DecodeHex | src/main/java/com/cfgglobal/common/util/DESUtil.java:61-69 | Decoding succeeds iff every slice parses. Then there are `len / 2` bytes and byte `i` is slice `i`'s value reduced to a byte. Otherwise the first bad slice is the error. |
| HexCodec.FirstBadPair | src/main/java/com/cfgglobal/common/util/DESUtil.java:62-66 | When every earlier slice parses, the first slice that does not parse is the decoding's error. |
| HexCodec.ConvertHexString | src/main/java/com/cfgglobal/common/util/DESUtil.java:61-69 | The loop computes exactly the decoding, including its first error. |
| HexCodec.PairGrammar | src/main/java/com/cfgglobal/common/util/DESUtil.java:64-65 | A two-character slice parses iff it is two hex digits (either case) or a sign and one hex digit, with the value each form denotes. |
| HexCodec.RoundTrip | src/main/java/com/cfgglobal/common/util/DESUtil.java:61-88 | `convertHexString(toHexString(b)) == b` for every byte sequence, which is what lets `decrypt` read `encrypt`'s output. |
| HexCodec.ReverseRoundTrip | src/main/java/com/cfgglobal/common/util/DESUtil.java:61-88 | An even-length run of hex digits decodes, and re-encodes to its lower-case form. |
| HexCodec.OddTailIgnored | src/main/java/com/cfgglobal/common/util/DESUtil.java:62-64 | A trailing odd character never changes the result. |
| HexCodec.SignedSlices | src/main/java/com/cfgglobal/common/util/DESUtil.java:65-66 | A signed slice is accepted and narrowed: `-c` becomes `256 - c` modulo 256, and `+c` becomes `c`. |
| Scenarios.StatusInScenario | src/main/java/com/cfgglobal/test/dao/base/BaseDaoImpl.java:176-189 | `status IN [ACTIVE, CLOSED]` with a `Status` enum is membership in exactly those two constants, joined by OR. |
| Scenarios.CreatedAtBetweenScenario | src/main/java/com/cfgglobal/test/dao/base/BaseDaoImpl.java:155-175 | `createdAt BETWEEN 2024-01-01, 2024-01-31` spans 2024-01-01 00:00 to 2024-01-31 00:00 in the configured zone. |
| Scenarios.OwnerNameLikeScenario | src/main/java/com/cfgglobal/test/dao/base/BaseDaoImpl.java:108-151 | `account.owner.name LIKE Bob` joins `account` then `owner`, reads `name`, and matches exactly the names containing `Bob`. |
| Scenarios.LikeWildcardScenario | src/main/java/com/cfgglobal/test/dao/base/BaseDaoImpl.java:149-151 | `name LIKE a_c` compiles to the pattern `%a_c%`, which matches `abc` although `abc` does not contain `a_c`. |
| Scenarios.LeadingZeroScenario | src/main/java/com/cfgglobal/test/dao/base/BaseDaoImpl.java:190-201 | `07` compares as the number 7, `09` (not octal) compares as the text `09`, and `-09` goes to date parsing and throws. |
| Scenarios.AmountBetweenScenario | src/main/java/com/cfgglobal/test/dao/base/BaseDaoImpl.java:162-164 | `amount BETWEEN 100, abc` is accepted as the int range from 100 to 0. |

## Notable behaviour of the code

The model follows the code as written. These consequences of it are easy to miss:

- **The lower bound alone picks the BETWEEN branch** (`BaseDaoImpl.java:162`).
  - A numeric lower bound converts both bounds with `toInt`, so a non-numeric upper bound becomes 0 (`Scenarios.AmountBetweenScenario`).
  - A non-numeric lower bound sends both bounds to date parsing, so a numeric upper bound becomes a parse error.
  - `toInt` also makes a fraction or an out-of-range bound 0 (`JavaNumbers.FractionParsesAsZero`).
- **An IN list with an unresolvable name fails on `Option.get()`** (`CompileError.NoSuchEnum` of the first such name).
  - A list whose first element is not an enum name is compared raw, even if later elements are enum names.
- **The combinator is the operator field itself** (`BaseDaoImpl.java:124`).
  - Only an operator spelled `AND` in some case joins by AND.
  - Every real comparison operator, and every condition rewritten to EQ, joins by OR.
  - The fold reads the operator of the `cb.and(p)`/`cb.or(p)` wrapper (`BaseDaoImpl.java:132`).
- **The blank filter compares the operator with `BETWEEN` exactly and case-sensitively, while dispatch upper-cases it.**
  - A lower-case `between` is not checked for blank bounds.
  - A scalar value under `BETWEEN` throws in the filter (`CompileError.NotAnArray`) before dispatch is reached.
- **An array value is never blank**, because its `toString()` is the array's identity text. Under LIKE, LESS_EQ or the equality cascade that text is the comparand.
- **`%` and `_` in a LIKE value are not escaped** (`BaseDaoImpl.java:150`), so they act as wildcards. `a_c` matches `abc`, which does not contain it (`Scenarios.LikeWildcardScenario`).
- **LESS_EQ is a strict `lessThan` on the raw text**, and an unrecognised operator falls to the equality cascade.
- **A leading-zero integer is a number only when it is octal** (`JavaNumbers.LeadingZeroIsOctal`). `07` compares as 7, `09` compares as text, and `-09` throws in date parsing (`Scenarios.LeadingZeroScenario`).

## Left out

- JPA itself is not modelled. That covers `findAll`, paging, `Specification`, `query.getRestriction()`, the metamodel, and so failure on an unknown attribute or relation (the predicates are data over field names). `findByRequestParameters` and `Filter.createFilters` are also out: the `Filter` and `Condition` classes are not part of this model.
- The operator constants `EQ`, `LIKE`, `LESS_EQ`, `BETWEEN`, `IN` and `AND` are assumed to be these upper-case names. The `Filter` class that defines them is not part of this model. The proofs rely only on their being distinct and unchanged by upper-casing.
- Enum class loading by reflection (`BaseDaoImpl.java:45-47`) is replaced by a registry of type names and constant sets. A configured class that fails to load, which throws in Java, is not modelled.
- Logging (`BaseDaoImpl.java:55`, `66`) is left out.
- The DES cipher (`DESUtil.java:25-53`), URL encoding and decoding (`DESUtil.java:94`, `104`) and `main`'s printing are JCE and library calls. `encrypt`/`decrypt` are represented only by the hex round trip they rely on.
- Character classes are modelled on ASCII only: case mapping, `Character.isWhitespace`, digits, and `Character.digit(_, 16)`. Unicode case rules and the locale of `toUpperCase` are not modelled.
- JavaNumbers.IsCreatable: `NumberUtils.isCreatable` is reduced to an optional sign, digits, and an optional fraction with digits on both sides, plus its octal rule (without a dot, a leading `0` followed by a digit needs every later digit to be 0-7). Hex literals (`0x`, `#`), exponents, type suffixes and a leading or trailing dot are not recognised. Java accepts some of them, and the model sends them to later branches of the cascade instead.
- JavaTime.ParseDate: `yyyy` is read as exactly four digits with year at least 1. Longer or signed years are not accepted. A day beyond the month's length (up to 31) is clamped to the month's end, as the default SMART resolver does.
- JavaTime.AtZone: `atZone(ZoneId.systemDefault())` pairs the local time with the zone passed in `Config`. Gaps and overlaps of daylight-saving transitions are not modelled.
- Filters.ARRAY_TEXT: an array's `toString()` is modelled by its fixed prefix `[Ljava.lang.String;@`. The identity hash that follows it only exists at run time.
- `setOperator` mutates the caller's condition (`BaseDaoImpl.java:146`). The model returns the rewritten condition, but does not model a later compilation of the same filter object seeing the rewrite.
- The `predicate == null` branch (`BaseDaoImpl.java:121-123`) is not modelled, because `getPredicate` never returns null. Null fields, values and hex strings (a `NullPointerException` in Java) are not modelled either.
- HexCodec.Pairs / HexCodec.DecodeHex: lengths and slices count characters (code points), while `length()` and `substring` (`DESUtil.java:62-64`) count UTF-16 units. For a text with a character outside the Basic Multilingual Plane the slices differ. For example, Java reads the one such character `U+1F600` as one two-unit slice and throws, while the model sees one character, no slice, and decodes it to no bytes.
- Each dotted condition calls `root.join` anew (`BaseDaoImpl.java:112-114`), and every call adds its own inner join to the query. So a row without the related entity is excluded even when its condition sits in an OR group, and two conditions on one relation join it twice. The model resolves a dotted name to a `Path` inside the predicate and does not model the query's join list. `CompilerProperties.FindByFilterMeaning` describes only the WHERE tree.
- HexCodec.ParseRadix16: the `int` overflow check is modelled, but it can never trigger on the two-character slices `convertHexString` passes.
