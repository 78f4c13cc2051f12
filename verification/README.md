# pyseekdb database version model

The pyseekdb client reads the version of the database it is connected to
and keeps it as a `Version` value (`src/pyseekdb/client/version.py`). This
project models that value type in Dafny:

- **Parsing** a dotted string. The empty string is rejected. A string whose
  `'.'`-split has neither 3 nor 4 parts is rejected. A string with any part
  that is not an integer is rejected. These checks run in that order. A
  three-part version is padded with a build part of `0`.
- **Printing**, which always writes all four parts joined by `'.'`.
- **Comparison** (`==`, `<`, `<=`, `>`, `>=`), which is Python's comparison
  of the four-part lists, and a **hash** derived from the same parts.

Modules, leaf first:

| file | module | models |
|---|---|---|
| `wrappers.dfy` | `Wrappers` | `Option` / `Result`, used where Python raises `ValueError` |
| `text.dfy` | `Text` | `str.split('.')` and `'.'.join(...)` |
| `decimal.dfy` | `Decimal` | `int(part)` on a signed decimal literal, and `str(n)` |
| `list_order.dfy` | `ListOrder` | Python's `<`, `<=`, `>`, `>=` on integer lists |
| `version.dfy` | `Versions` | the `Version` class: parse, accessors, `__str__`, comparisons, `__hash__` |
| `version_examples.dfy` | `VersionExamples` | the concrete cases of the unit test and of the class docstring |

A `Version` is a datatype of four unbounded integers: `major`, `minor`,
`patch` and `build`. The Python `parts` property and its accessors become
the datatype's fields and `Versions.Parts`. Parts are `int`, not `nat`,
because Python's `int()` accepts a sign, so `"-1.2.3"` parses.

## Model

| member | source | states |
|---|---|---|
| Versions.Parse | src/pyseekdb/client/version.py:35-53 | The empty string, and only it, fails with `Empty`. A non-empty string fails with `WrongPartCount` exactly when its `'.'`-split has neither 3 nor 4 parts. It fails with `NonNumericPart` exactly when the count is right and some part is not an integer literal. On success, major, minor and patch are the integers of the first three parts, and build is the fourth part's integer or `0` when there are three parts. |
| Versions.ParseParts | src/pyseekdb/client/version.py:44-49 | The list comprehension over `int(part)` succeeds exactly when every part is an integer literal. It then yields one integer per part, in order, each being that part's value. |
| Versions.WrongPartCountByDots | src/pyseekdb/client/version.py:38-42 | Stated on the raw input: a non-empty string is a part-count error exactly when it contains neither two nor three dots, whatever its parts look like. |
| Versions.ThreePartsPadded | src/pyseekdb/client/version.py:51-53 | For every string with exactly two dots, appending `".0"` gives the same outcome: the same version, or the same error. |
| Versions.ParseJoined | src/pyseekdb/client/version.py:38-53 | Every well-formed input is accepted. Three or four dot-free integer texts joined by dots parse to the version they spell, with build `0` for three. |
| Versions.ToString | src/pyseekdb/client/version.py:80-83 | The printed form splits on `'.'` into exactly four parts. Each part is a canonical integer text (no `+`, no leading zero, `-` only before a non-zero value), and the i-th part reads back as the i-th field. |
| Versions.ParseToString | src/pyseekdb/client/version.py:25-83 | Parsing the printed form of any version returns that version. |
| Versions.ToStringOfParse | src/pyseekdb/client/version.py:80-83 | A canonical four-part text is accepted, and printing its version gives back exactly that text. So `str(v)` is the only canonical spelling of `v`, and a canonical four-part input prints unchanged. |
| Versions.Parts | src/pyseekdb/client/version.py:55-58 | The `parts` tuple (major, minor, patch, build). It is a definition with no contract of its own. Its injectivity is stated by `Versions.Eq`. |
| Versions.Eq | src/pyseekdb/client/version.py:89-93 | `==` compares the four-part tuples. That holds exactly when the two versions are the same value. |
| Versions.Less | src/pyseekdb/client/version.py:95-99 | `a < b` (list `<` on the parts) holds exactly when the first of major, minor, patch and build on which the two differ is smaller in `a`. That is the independent field-by-field order `LexLess`. |
| Versions.LessEq | src/pyseekdb/client/version.py:101-105 | `a <= b` holds exactly when `a < b` or `a == b`. |
| Versions.Greater | src/pyseekdb/client/version.py:107-111 | `a > b` holds exactly when `b < a`. |
| Versions.GreaterEq | src/pyseekdb/client/version.py:113-117 | `a >= b` holds exactly when `b <= a`. |
| Versions.Hash | src/pyseekdb/client/version.py:119-121 | The foreign tuple hash applied to the parts tuple. It is a definition with no contract of its own. Its promise is stated by `Versions.HashRespectsEq`. |
| Versions.HashRespectsEq | src/pyseekdb/client/version.py:119-121 | Equal versions have equal hashes for any tuple hash function, so they are interchangeable as set and dict keys. |
| Versions.Trichotomy | src/pyseekdb/client/version.py:89-111 | For any two versions, exactly one of `a < b`, `a == b` and `a > b` holds. |
| Versions.LessTransitive | src/pyseekdb/client/version.py:95-99 | `<` is transitive. |
| Versions.LessEqTotalOrder | src/pyseekdb/client/version.py:101-105 | `<=` is total, antisymmetric (up to identity of values) and transitive. |
| Text.Split | src/pyseekdb/client/version.py:38 | `str.split` yields at least one piece. No piece contains the separator. Joining the pieces with the separator gives back the input. |
| Text.Join | src/pyseekdb/client/version.py:83 | `'.'.join(parts)` puts one separator between neighbouring pieces. It is a definition with no contract of its own. `Text.Split` and `Text.SplitJoin` state that splitting inverts it. |
| Text.SplitLength | src/pyseekdb/client/version.py:38-39 | The number of pieces is one more than the number of separators in the input. |
| Text.SplitJoin | src/pyseekdb/client/version.py:38 | Splitting a join of one or more separator-free pieces returns exactly those pieces, so the split is the unique such decomposition. |
| Decimal.ParseInt | src/pyseekdb/client/version.py:45 | `int(part)` succeeds exactly on an optional sign followed by at least one ASCII digit. A leading `-` gives a value `<= 0`; otherwise the value is `>= 0`. The value itself is pinned down by `Decimal.IntToString`, `Decimal.IntToStringOfParseInt`, `Decimal.PlusSignIgnored`, `Decimal.MinusSignNegates` and `Decimal.LeadingZeroIgnored`. |
| Decimal.MinusSignNegates | src/pyseekdb/client/version.py:45 | For a non-empty digit string `d`, `int("-" + d) == -int(d)`, so `int("-05") == -5` and `int("-0") == 0`. |
| Decimal.PlusSignIgnored | src/pyseekdb/client/version.py:45 | For a digit string `d`, `int("+" + d) == int(d)`. |
| Decimal.IntToStringOfParseInt | src/pyseekdb/client/version.py:45 | Every canonical integer text is accepted by `int()`, and `str(int(s)) == s`. |
| Decimal.LeadingZeroIgnored | src/pyseekdb/client/version.py:45 | For a non-empty digit string `d`, `int("0" + d) == int(d)`, so `int("05") == int("5")`. |
| Decimal.NatToString | src/pyseekdb/client/version.py:83 | `str(n)` for `n >= 0` is a canonical digit string (non-empty, no leading zero unless it is `"0"`) whose base-ten value is `n`. |
| Decimal.IntToString | src/pyseekdb/client/version.py:83 | `str(i)` is a canonical integer text. It starts with `-` exactly when `i < 0`, contains no `'.'`, and `int()` reads it back as `i`. |
| ListOrder.ListCompare | src/pyseekdb/client/version.py:95-117 | Python list comparison, scanning both lists from the front. It is a definition with no contract of its own. Its meaning is stated by `ListOrder.ListCompareDecidedAtFirstDifference`. |
| ListOrder.ListCompareDecidedAtFirstDifference | src/pyseekdb/client/version.py:95-117 | At the first position where the lists differ, the result is the operator applied to the two items there. When one list is a prefix of the other, the result is the operator applied to the two lengths. |
| ListOrder.LeIsLtOrEqual | src/pyseekdb/client/version.py:105 | On integer lists, `a <= b` holds exactly when `a < b` or `a == b`. |
| ListOrder.GtIsFlippedLt | src/pyseekdb/client/version.py:111 | On integer lists, `a > b` holds exactly when `b < a`. |
| ListOrder.GeIsFlippedLe | src/pyseekdb/client/version.py:117 | On integer lists, `a >= b` holds exactly when `b <= a`. |
| ListOrder.LtTrichotomy | src/pyseekdb/client/version.py:99 | For any two integer lists, exactly one of `a < b`, `a == b` and `b < a` holds. |
| ListOrder.LtTransitive | src/pyseekdb/client/version.py:99 | `<` on integer lists is transitive. |
| VersionExamples.ParseFourPartExamples | tests/test_detect_db_type_and_version.py:193-194 | `"1.0.1.0"` parses to (1, 0, 1, 0) and `"1.0.0.1"` to (1, 0, 0, 1). |
| VersionExamples.BuildPartComparedLast | tests/test_detect_db_type_and_version.py:196-205 | 1.0.1.0 is greater than 1.0.0.1 even though its build part is smaller. `>=`, `<`, `<=` and `!=` agree with that, and 1.0.1.0 equals 1.0.1.0. |
| VersionExamples.ParseThreePartExample | tests/test_detect_db_type_and_version.py:208 | `"1.2.3"` parses to (1, 2, 3, 0). |
| VersionExamples.ThreePartEqualsPadded | tests/test_detect_db_type_and_version.py:207-210 | `Version("1.2.3") == Version("1.2.3.0")`. |
| VersionExamples.PrintsFourPartsUnchanged | tests/test_detect_db_type_and_version.py:213 | `str(Version("1.0.1.0")) == "1.0.1.0"`. |
| VersionExamples.PrintsThreePartsPadded | tests/test_detect_db_type_and_version.py:214 | `str(Version("1.2.3")) == "1.2.3.0"`. |
| VersionExamples.PatchOrderExample | src/pyseekdb/client/version.py:19-22 | The docstring example: `"1.2.4"` parses to (1, 2, 4, 0), and 1.2.3 is less than 1.2.4. |
| VersionExamples.CountCheckedFirst | src/pyseekdb/client/version.py:35-42 | `""` is an `Empty` error. `"a.b"` is a part-count error, not a non-numeric one. |
| VersionExamples.DoubleDotRejected | src/pyseekdb/client/version.py:44-49 | `"1..2.3"` is a non-numeric error because its second part is empty. |
| VersionExamples.TrailingDotRejected | src/pyseekdb/client/version.py:44-49 | `"1.2.3."` is a non-numeric error because its fourth part is empty. |
| VersionExamples.SignsAndLeadingZeros | src/pyseekdb/client/version.py:45 | `int()` accepts signs and leading zeros, so `"-1.+2.03"` parses to (-1, 2, 3, 0). |

## Left out

- Decimal.ParseInt: accepts only an optional `+`/`-` followed by ASCII digits. Python's `int()` also accepts surrounding whitespace, `_` between digits and non-ASCII Unicode digits. This is a deliberate narrowing: for example, `" 1.2.3"` parses in Python but is a `NonNumericPart` error here.
- Decimal.ParseInt: has no limit on the number of digits. Python 3.11 and later (and the security backports) make `int()` raise `ValueError` on a decimal literal of more than 4300 digits (`sys.get_int_max_str_digits()`), which version.py:46-49 reports as a non-numeric part. So a version with a part of more than 4300 digits parses here but is rejected by the source.
- Versions.Parse: inherits both `Decimal.ParseInt` differences above.
- Versions.Parse: the text of each `ValueError` message is reduced to its kind (`Empty`, `WrongPartCount`, `NonNumericPart`).
- Versions.HashRespectsEq: the concrete value of `__hash__` comes from Python's tuple hash, which is foreign code. It is a parameter here, and only its consistency with equality is stated.
- `__repr__` (version.py:85-87) only wraps the printed form for debugging.
- The `NotImplemented` returns for comparisons with non-`Version` objects are ruled out by Dafny's types.
- Collection operations (filtering, embedding, hybrid search) are outside this model.
- Embedding functions (`pyseekdb/client/embedding_function.py`) wrap a foreign model library. The demo application and the integration tests talk to live servers. None of these is part of this model.
