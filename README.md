# Correct person list — a verified Dafny model

This project models two pieces of a small C# console program.

- **`CorrectPersonList.cs`**
  - Raw `RecPerson` records become `Person` objects.
  - Each `Person` property setter validates its value:
    - first name and surname: not null, blank or containing a digit; the surname is stored trimmed;
    - post code: `00-000`;
    - age: at most 110;
    - birth date: an existing day written `yyyy-MM-dd`.
  - `SetFields` runs the seven setters in order and stops at the first one that throws.
  - `GetListPerson` keeps the records whose `SetFields` completes and skips the others.
  - `Start`/`GetPersonList` load the sample records and report whether the list is non-empty.
  - `FixedString` and `PrintPerson` build the fixed-column text of one person.
- **`Program.cs`**: the operators `Main` applies to the validated list:
  - the stable sort `OrderBy(Age).ThenBy(Country)`;
  - three formulations of the filter `Age > 32 && Country != "France"`;
  - the map to display strings;
  - `GroupBy(Country)`;
  - pagination into chunks of `pageSize`.

Modules:

| file | module | contents |
|---|---|---|
| `wrappers.dfy` | `Wrappers` | `Option` (a nullable reference), `Result` (a value or the exception thrown), `Outcome` (a `void` call that completed or threw) |
| `text.dfy` | `Text` | `\d`, white space, `IsNullOrWhiteSpace`, `Trim`, `PadRight`/`PadLeft`, anchored fixed-width patterns, decimal integers, ordinal string order |
| `dates.dfy` | `Dates` | the Gregorian calendar and `TryParseExact(s, "yyyy-MM-dd")`, with a format/parse round trip |
| `seqs.dfy` | `Seqs` | `Where`, `Select`, `SelectMany`, `Flatten`, subsequences |
| `persons.dfy` | `Persons` | the validators; the class `Person`, whose setter methods are proved against pure `Assign*` functions on a `PersonState` value; `SetFields`; `RecPerson` |
| `person_list.dfy` | `PersonList` | the sample rows; `BuildList` (what `GetListPerson` returns, as values); the class `CorrectPersonList` |
| `printing.dfy` | `Printing` | `FixedString` and the `PrintPerson` message |
| `sorting.dfy` | `Sorting` | the stable sort by `(Age, Country)` |
| `queries.dfy` | `Queries` | the three filters, the names map, pagination |
| `grouping.dfy` | `Grouping` | `GroupPersonsByCountry` |

A thrown exception is a `Failure`/`Fail` value carrying a `ValidationError`. The error says which check failed. `NameWithDigits`, `BadPostCode`, `AgeTooBig` and `BadDate` also hold the offending value; `EmptyName` and `NullPostCode` hold none. The empty-name message names no value, and a null post code makes `Regex.IsMatch` throw an `ArgumentNullException` instead. The sequence operators work on `PersonData`, the values of a `Person` whose seven fields are all set. `GetListPerson` is proved to return fresh `Person` objects whose values are exactly `BuildList(rows)`. In the `PrintPerson` message (`Printing.Shown`), a null first name, surname, gender, post code or birth date is written as nothing, as string interpolation writes null. The name is concatenated before `FixedString`, so `FixedString` never receives a null name.

## Model

| member | source | states |
|---|---|---|
| Persons.ValidateName | CorrectPersonList.cs:236-241 | Accepts a name exactly when it is non-null, has a non-white-space character and has no digit. An accepted name is returned unchanged, not trimmed. A null or blank name fails with `EmptyName`, whether or not it has a digit. Any other name with a digit fails with `NameWithDigits` carrying the name. |
| Persons.ValidateSurName | CorrectPersonList.cs:231-234 | Accepts exactly what `ValidateName` accepts and fails with the same error. The accepted value is the trimmed name: non-empty, with no white space at either end. |
| Persons.ValidateDate | CorrectPersonList.cs:243-248 | Accepts exactly a non-null string of shape `dddd-dd-dd` that names an existing day. It is stored unchanged. Otherwise it fails with `BadDate` carrying the value. |
| Persons.PostCodeShape | CorrectPersonList.cs:187 | `^\d{2}-\d{3}$` matches exactly the six-character strings: digit, digit, `-`, digit, digit, digit. |
| Persons.AssignFirstName | CorrectPersonList.cs:169-170 | The `FirstName` setter succeeds iff `ValidateName` does. It then stores the value as given and changes no other field. On failure it reports `ValidateName`'s error. |
| Persons.AssignSurName | CorrectPersonList.cs:172-173 | The `SurName` setter succeeds iff `ValidateName` does. It then stores the trimmed value and changes no other field. On failure it reports `ValidateName`'s error. |
| Persons.AssignPostCode | CorrectPersonList.cs:181-191 | Succeeds iff the value equals the current one (null included) or is a post code, and then holds the value. Otherwise it fails with `NullPostCode` or `BadPostCode(value)`. |
| Persons.AssignAge | CorrectPersonList.cs:193-201 | Succeeds iff the age is at most 110; there is no lower bound. A success stores the age. A failure reports `AgeTooBig(age)`. |
| Persons.AssignDateBr | CorrectPersonList.cs:203-207 | Succeeds iff `TryParseExact` does, and stores the string unchanged. A failure reports `BadDate(value)`. |
| Persons.ApplyFields | CorrectPersonList.cs:219-229 | `SetFields` on a state: each field afterwards holds either its old value or the argument (the surname trimmed), and the birth date is assigned iff the call completes. When it completes is stated by `SetFieldsSucceedsIff`. |
| Persons.SetFieldsSucceedsIff | CorrectPersonList.cs:219-229 | `SetFields` completes iff all five checked arguments are valid; the post code is judged against the one held before. It then holds the arguments with the surname trimmed. A failed call never assigns the birth date. |
| Persons.Person.constructor | CorrectPersonList.cs:215-217 | A new `Person` has every reference field null and age 0. |
| Persons.Person.SetFirstName | CorrectPersonList.cs:169-170 | Outcome and new state are those of `AssignFirstName`. A rejected value leaves the object unchanged. Only `firstName` may change. |
| Persons.Person.SetSurName | CorrectPersonList.cs:172-173 | Outcome and new state are those of `AssignSurName`. Only `surName` may change. |
| Persons.Person.SetGend | CorrectPersonList.cs:175-176 | Stores the value, unchecked. Only `gend` changes. |
| Persons.Person.SetCountry | CorrectPersonList.cs:178-179 | Stores the value, unchecked. Only `country` changes. |
| Persons.Person.SetPostCode | CorrectPersonList.cs:181-191 | Outcome and new state are those of `AssignPostCode`, including the early return when the value is unchanged. Only `postCode` may change. |
| Persons.Person.SetAge | CorrectPersonList.cs:193-201 | Outcome and new state are those of `AssignAge`. Only `age` may change. |
| Persons.Person.SetDateBr | CorrectPersonList.cs:203-207 | Outcome and new state are those of `AssignDateBr`. Only `dateBr` may change. |
| Persons.SetFieldsFirstFailure | CorrectPersonList.cs:219-229 | When a checked field is the first to fail, `SetFields` reports that setter's error: the name error, `NullPostCode`/`BadPostCode(value)`, `AgeTooBig(age)` or `BadDate(value)`. The state then holds exactly the fields assigned before it (the surname trimmed); the later fields keep their old values. |
| Persons.Person.SetFields | CorrectPersonList.cs:219-229 | Outcome and final state are `ApplyFields`: the setters run in order and the first failure is returned. The fields assigned before it keep their new values; the later ones keep their old values. |
| Persons.NewRecPerson | CorrectPersonList.cs:145-160 | Building a `RecPerson` fails with `NameWithDigits(firstName)` iff the first name has a digit. An empty or blank name is accepted. All seven values are stored as given. |
| Persons.PostCodeExamples | CorrectPersonList.cs:181-191 | `"00-432"` is accepted. `"22-432y"` and `"WN-432"` are rejected with their value. A null post code is accepted by a fresh `Person`, since it equals the null already held. |
| Persons.AgeExamples | CorrectPersonList.cs:198 | 110 is accepted; 120 is rejected with `AgeTooBig(120)`. |
| Persons.DateExample | CorrectPersonList.cs:245-247 | `"1965-12-11"` is accepted and stored as given. |
| Persons.BadMonthExample | CorrectPersonList.cs:245-246 | `"1994-48-01"` (month 48) is rejected. |
| Persons.BadYearExample | CorrectPersonList.cs:245-246 | `"20FR-07-09"` (letters in the year) is rejected. |
| Persons.BlankNameExample | CorrectPersonList.cs:238 | A name of three spaces is rejected as empty. |
| Persons.DigitNameExample | CorrectPersonList.cs:239 | `"Pid7ck"` is rejected with `NameWithDigits("Pid7ck")`. |
| Text.ContainsDigit | CorrectPersonList.cs:239 | The unanchored search for `\d` is true iff some character is a digit. |
| Text.IsBlank | CorrectPersonList.cs:238 | `IsNullOrWhiteSpace` on a non-null string: true iff every character is white space (the empty string included). |
| Text.LeadingWhiteSpace | CorrectPersonList.cs:233 | The count `Trim` skips at the start: every character before it is white space and the one at it is not. |
| Text.TrailingWhiteSpace | CorrectPersonList.cs:233 | The count `Trim` skips at the end: every character after the cut is white space and the one before it is not. |
| Text.Trim | CorrectPersonList.cs:233 | The result is no longer than the input, and a non-empty result has no white space at either end. |
| Text.TrimKeepsSlice | CorrectPersonList.cs:233 | `Trim` keeps one contiguous slice of its input, and everything it removes on either side is white space. |
| Text.TrimIdempotent | CorrectPersonList.cs:233 | Trimming twice is trimming once. |
| Text.TrimEmptyIffBlank | CorrectPersonList.cs:233-238 | A string trims to empty iff it is blank, so a surname that passed `ValidateName` is never stored empty. |
| Text.TrimSurrounded | CorrectPersonList.cs:233 | White space around a string with non-white ends is removed exactly: `Trim(w1 + s + w2) == s`. |
| Text.PadRight | CorrectPersonList.cs:288 | `PadRight(width)` keeps the string as a prefix and fills with spaces up to `width`. It never truncates. |
| Text.PadLeft | CorrectPersonList.cs:279 | `{x,3}` right-aligns: the string is a suffix, preceded by pad characters up to `width`. |
| Text.MatchesExactlyIff | CorrectPersonList.cs:187 | An anchored fixed-width pattern matches exactly the strings of its length whose every character matches its token. |
| Text.IntToString | CorrectPersonList.cs:279 | The text of an `int` reads back as the same number: its digits, after a leading `-` for a negative. There are no leading zeros: only 0 itself is written starting with `0`. |
| Text.NatToStringRoundTrip | Program.cs:121 | The decimal text of a natural number reads back as that number. |
| Text.StringLessIrreflexive | Program.cs:30 | Ordinal string order is irreflexive. |
| Text.StringLessTransitive | Program.cs:30 | Ordinal string order is transitive. |
| Text.StringLessTotal | Program.cs:30 | Any two different strings are ordered one way or the other. |
| Text.StringLessAsymmetric | Program.cs:30 | Ordinal string order is asymmetric. |
| Dates.DaysInMonth | CorrectPersonList.cs:245 | A month has 28 to 31 days, and 29 exactly for February of a Gregorian leap year. |
| Dates.FieldsOf | CorrectPersonList.cs:245 | The year, month and day read from a `yyyy-MM-dd` string are in range for four and two digits. |
| Dates.TryParseExact | CorrectPersonList.cs:245 | Succeeds iff the string is non-null, has the exact shape `yyyy-MM-dd` and names an existing day (years 1 to 9999). The parsed date is those fields. |
| Dates.FormatThenParse | CorrectPersonList.cs:245 | Every valid date, written as `yyyy-MM-dd` with zero padding, parses back to itself. |
| Seqs.Where | Program.cs:98-99 | `Where` keeps only elements that satisfy the predicate and is never longer than its input. |
| Seqs.WhereKeepsExactly | Program.cs:98-99 | `Where` returns a subsequence of its input. Each satisfying element appears as often as in the input, and no other element appears. |
| Seqs.WhereAppend | Program.cs:98-99 | `Where` distributes over concatenation. |
| Seqs.SelectMany | Program.cs:112 | An element is in the result iff it is in the sequence `f` gives for some input element. |
| Seqs.Select | Program.cs:112 | `Select` keeps the length and maps each position. |
| PersonList.GenderOfCode | CorrectPersonList.cs:106 | The gender is `F` iff the code is exactly `"F"`; any other code, including `"f"` and the empty string, gives `M`. |
| PersonList.Convert | CorrectPersonList.cs:101-111 | One `try` iteration yields a person iff the row is valid (`RowValid`: the five checks of `SetFields`, on a fresh `Person` whose post code is null). The person is then the row with the surname trimmed and the gender code mapped (`"F"` to `F`, anything else to `M`). |
| PersonList.ConvertIsSetFields | CorrectPersonList.cs:105-107 | What `SetFields` leaves on a fresh `Person` is what `Convert` describes: complete on success, nothing kept on failure. |
| PersonList.BuildList | CorrectPersonList.cs:94-119 | The built list is never longer than the input. |
| PersonList.BuildListKeepsValidRows | CorrectPersonList.cs:94-119 | The built list is exactly the valid rows, in input order, each turned into its person. |
| PersonList.BuildListAppend | CorrectPersonList.cs:99-116 | Building is row by row, so a bad row never stops later rows. |
| PersonList.MakeRecords | CorrectPersonList.cs:52-77 | The collection initialiser succeeds iff every record builds. It then holds each record in order. |
| PersonList.MakeRecordsFirstError | CorrectPersonList.cs:50-84 | A failing initialiser reports the error of the first record that throws. |
| PersonList.DroppedRowExamples | CorrectPersonList.cs:58-59 | The sample rows with age 120 and with surname `"   Pid7ck"` are not valid, so they are skipped. |
| PersonList.MakeRecordsKeeps | CorrectPersonList.cs:52-77 | A successful initialiser holds exactly the records as written, since `new RecPerson` stores its arguments unchanged. |
| PersonList.GetExampleListPersonR | CorrectPersonList.cs:48-85 | The message is always `"Ok"`, even when building failed. A success returns the sample rows exactly as written; a failure returns an empty list. |
| PersonList.CorrectPersonList.constructor | CorrectPersonList.cs:19-23 | The new object has no lists and a count of 0. |
| PersonList.CorrectPersonList.GetListPerson | CorrectPersonList.cs:94-119 | Returns fresh `Person` objects, all fields set, whose values are exactly `BuildList(rows)`. |
| PersonList.CorrectPersonList.AddRow | CorrectPersonList.cs:99-116 | One loop iteration appends the row's person when it is kept. The earlier persons' values are unchanged. |
| PersonList.CorrectPersonList.TryPerson | CorrectPersonList.cs:101-111 | A fresh `Person` after `SetFields`. It is kept iff `Convert` keeps the row, and its values are then `Convert`'s person. |
| PersonList.CorrectPersonList.Load | CorrectPersonList.cs:39-45 | On `ok`: stores the records, a list of fresh persons whose values are `BuildList` of them, and its length as the count. Otherwise nothing changes. |
| PersonList.CorrectPersonList.Start | CorrectPersonList.cs:35-46 | `Load` of what `GetExampleListPersonR` returns. The count is the length of the list. |
| PersonList.CorrectPersonList.GetPersonList | CorrectPersonList.cs:25-33 | Optionally runs `Start`. `ok` is true iff the list exists and is non-empty, and the list is returned. |
| Printing.FixedString | CorrectPersonList.cs:286-289 | Always exactly `n` characters: character `i` is `s[i]` where `s` has one, a space otherwise. |
| Printing.FixedStringCutsOrPads | CorrectPersonList.cs:286-289 | A string of at least `n` characters is cut to its first `n`. A shorter one is kept whole and followed by spaces. |
| Printing.AgeColumn | CorrectPersonList.cs:279 | `{xAge,3}` is the decimal text of the age, right-aligned with spaces in three columns, or exactly that text when it is wider. |
| Printing.AgeColumnWidth | CorrectPersonList.cs:279 | An age from 0 to 999 fills exactly three columns. |
| Printing.PersonMessage | CorrectPersonList.cs:277-281 | The message exists iff the country is non-null; `FixedString` on a null country throws. |
| Printing.PersonMessageLayout | CorrectPersonList.cs:277-281 | With a one-letter gender and an age up to 999, the message is columnar: `"Person: "`, the name in exactly 16 columns, `" ["`, the gender at column 26, `"], "`, the country in 8 columns at 30-37, `" Age: "` at 38-43 and the age at 44-46. Then the code/birth-date tail, only when asked for. |
| Sorting.KeyLessIrreflexive | Program.cs:29-30 | No person sorts strictly before itself. |
| Sorting.KeyLessTransitive | Program.cs:29-30 | The `(Age, Country)` order is transitive. |
| Sorting.KeyLessTotal | Program.cs:29-30 | Two persons are ordered one way or the other, or have the same key. |
| Sorting.Insert | Program.cs:28-31 | Inserting adds exactly the one element (multiset). |
| Sorting.Sort | Program.cs:28-31 | The sort is a permutation of its input. |
| Sorting.InsertSorted | Program.cs:28-31 | Inserting into a sorted sequence keeps it sorted. |
| Sorting.SortSorted | Program.cs:28-31 | The result is ordered by age, then by country. |
| Sorting.InsertStable | Program.cs:28-31 | An insertion places the element after every element with its key. |
| Sorting.SortStable | Program.cs:28-31 | Stability: for every key, the persons with that key appear in input order. |
| Sorting.InsertAtEnd | Program.cs:28-31 | An element with no smaller key after it is inserted last. |
| Sorting.SortIdempotent | Program.cs:28-31 | Sorting an already sorted list returns it unchanged. |
| Sorting.SortTwice | Program.cs:28-31 | Sorting twice is sorting once. |
| Queries.ListPersonWithYield1 | Program.cs:86-92 | Every yielded person is over 32 and not from France, and the result is no longer than the input. |
| Queries.ListPersonWithYield2 | Program.cs:96-103 | Every yielded person is over 32 and not from France, and the result is no longer than the input. It equals `ListPersonWithYield1` on every input, by `FiltersAgree`. |
| Queries.ListPersonWithSelectMany | Program.cs:110-112 | Every person in the result is over 32 and not from France. It equals `ListPersonWithYield2` on every input, by `FiltersAgree`. |
| Queries.SelectManySingleton | Program.cs:112 | `SelectMany(item => Repeat(item, 1))` returns its input unchanged. |
| Queries.Yield1IsWhere | Program.cs:86-103 | The `foreach`/`if` filter equals `Where` with the same condition. |
| Queries.FiltersAgree | Program.cs:86-112 | The three formulations return the same sequence for every input. |
| Queries.FilterKeepsExactly | Program.cs:86-92 | The filter is a subsequence of its input, in input order. It holds each satisfying person as often as the input does, and nothing else. |
| Queries.DisplayName | Program.cs:121 | A display line is at least 29 characters: 19 name columns, `" ("`, one digit at least and `" years)"`. Its full layout is `DisplayNameLayout`. |
| Queries.DisplayLineLayout | Program.cs:121 | For any name and age text, the interpolated line is the name padded with spaces to at least 19 columns, then `" ("`, the age text and `" years)"`. |
| Queries.DisplayNameLayout | Program.cs:121 | The display line starts with the trimmed first name, a space and the surname. These are padded with spaces, never cut, to 19 columns, followed by `" (" + age + " years)"`. |
| Queries.ListPersonNamesWithYield | Program.cs:118-122 | One display line per person, in input order. |
| Queries.PageCountIsCeiling | Program.cs:134 | The number of loop iterations over `n` elements is `ceil(n / pageSize)`. |
| Queries.DivisionBounds | Program.cs:134 | The quotient is the unique `q` with `q * d <= a < (q + 1) * d`. |
| Queries.PaginatePersons | Program.cs:132-136 | For `pageSize >= 1`, the pages concatenate to the input. Every page is non-empty and at most `pageSize` long, all but the last are exactly `pageSize`, and there are `ceil(n / pageSize)` of them. |
| Queries.PaginateNeverEnds | Program.cs:134 | With `pageSize <= 0` and a non-empty list, the unbounded index after any number of steps is still below the count, so the loop never ends. |
| Grouping.AddToGroups | Program.cs:127 | One `GroupBy` step keeps every group and adds at most one new one. It adds exactly the element, by `AddToGroupsAddsOne`, and keeps the reference grouping, by `AddToGroupsOf`. |
| Grouping.GroupPersonsByCountry | Program.cs:125-129 | There are groups iff the input is non-empty. What they are is `GroupingSpec`: distinct keys in first-occurrence order, each group exactly its country's elements in input order. |
| Grouping.AddToGroupsAddsOne | Program.cs:127 | One `GroupBy` step adds exactly the one element to the groups. |
| Grouping.GroupingKeepsAll | Program.cs:125-129 | Every input element is in the groups exactly as often as in the input, and nothing else is. |
| Grouping.Countries | Program.cs:127 | The distinct countries of the input, each of them and no other. |
| Grouping.CountriesInOrder | Program.cs:127 | The countries are in order of first occurrence. |
| Grouping.GroupsOf | Program.cs:125-129 | The reference grouping: for each key, the elements of that country in input order. |
| Grouping.AddToGroupsOf | Program.cs:127 | One `GroupBy` step maps the reference grouping of a prefix to that of the prefix extended by one element. |
| Grouping.GroupingIsGroupsOfCountries | Program.cs:125-129 | `GroupPersonsByCountry` equals the reference grouping over the countries in first-occurrence order. |
| Grouping.GroupingSpec | Program.cs:125-129 | The keys are distinct, in first-occurrence order, and are exactly the input's countries. Each group is non-empty and is exactly the input elements of its country, in input order. |

## Left out

- **Console output.** `Console.WriteLine`, `PrintListPerson`, `PrintHead`, `PrintPersonObj`, the "Proposal:"/"Entry:"/"ERROR:" lines in `GetListPerson` and the printing loops of `Main` are left out. Only the message string `PrintPerson` builds is modelled. A `RecPerson` always carries a country in this model (see the next line), so the prints inside the `try` of `GetListPerson` cannot throw, and leaving them out changes no result.
- **Null `RecPerson` fields.** `RecPerson`'s string fields are non-null, as declared. C# only warns when null is passed to them. Null fields are not modelled. A null country would make the "Proposal:" print throw in `FixedString`, and the row would be skipped. A null post code would pass the setter's equal-value early return on a fresh `Person`, and the row would be kept with a null post code, which `PersonData` cannot represent. A null first name would make `new RecPerson` throw in `Regex.IsMatch`. `BuildListKeepsValidRows` and `GetListPerson` are proved for rows without nulls.
- **Exception messages.** The text of each exception is not modelled. `ValidationError` records instead which check failed and, where the message names it, the offending value.
- **Laziness.** `yield return` and `IEnumerable` laziness are not modelled; each operator is a function on a finite sequence.
- **Values, not references.** The sort, filters, map, grouping and pagination act on `PersonData` values rather than on references to `Person` objects. Aliasing between the lists is not modelled.
- **`IPrintPerson` dispatch.** The default-interface-method dispatch is structure and is not modelled.
- **Dead code.** `GetExampleListPerson` and the seven-argument `Person` constructor, used only there, are never called and are not part of this model.
- **`\d` and `$`.** `\d` is modelled as the ASCII digits, although .NET also matches other Unicode decimal digits. The pattern `^\d{2}-\d{3}$` is modelled as matching the whole string, although .NET's `$` also matches before a final `\n`.
- **White space.** It is a fixed set: the ASCII white-space characters, U+0085, U+00A0, U+2028, U+2029 and U+3000. Other Unicode space separators (U+1680, U+2000-U+200A, U+202F, U+205F) are not included.
- **Dates.** `TryParseExact` with a `null` format provider follows the current culture's calendar. It is modelled as the proleptic Gregorian calendar, years 1 to 9999.
- **`ThenBy(Country)`.** It uses the culture-sensitive default comparer; the model uses ordinal order (by character code).
- **Sample data end to end.** Evaluating all 23 sample rows to their 18 kept persons is not proved. Unfolding the literal list is beyond the solver's budget. The `DroppedRowExamples` and `Persons` example lemmas cover the individual rows that fail.
- Queries.PaginatePersons: does not model the 32-bit overflow of `i += pageSize` for lists within `pageSize` of `int.MaxValue`. `Age` and the other integers are unbounded; every value the program handles is far from the `int` limits.
- Queries.PaginateNeverEnds: holds for an unbounded index. In C# `i` is a 32-bit `int`, so with a negative `pageSize` it falls to `int.MinValue` and wraps to a large positive value. The loop then ends after about 2^31 / |pageSize| empty pages, or throws under checked arithmetic. Only `pageSize == 0` loops forever in the source.
- Text.IntToString: writes a negative number with the ASCII `-`. `{xAge,3}` and `{item.Age}` format with the current culture's `NumberFormatInfo.NegativeSign`, which is U+2212 in some cultures (for example `sv-SE` under ICU). Ages have no lower bound in the source, so such a culture would change the text of a negative age in `AgeColumn` and `DisplayName`.
- **String lengths.** Dafny strings are sequences of Unicode code points, while .NET strings are sequences of UTF-16 code units. `FixedString`, `PadRight`, `PadLeft` and the `,-19` alignment of the display name therefore count widths in code points. They differ from .NET for characters outside the Basic Multilingual Plane (U+10000 and up), where .NET counts two units and `Substring` can split a surrogate pair. No sample row contains such a character.
