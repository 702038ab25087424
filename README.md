# Employee grid editing — a Dafny model

This project models the editable employee grid of a Blazor page: the `GridEditing` component,
which owns the rows and an append-only change log, and `EmployeeModel`, the record that each
row shows. It covers the following behaviour.

- **Adding a row.** A new row gets the next id, computed as the largest id plus one with C#'s
  unchecked 32-bit wrap-around, or 1 for an empty grid. Its other properties get fixed defaults.
- **Deleting a row.** The first row equal to the record is removed.
- **Editing one cell.** This is the single `object`-valued entry point; the typed overloads
  only box their argument. The edit is logged first, then validated. If it passes, the value
  is written into the named property. The record then replaces the first row with its id, and
  the commit hook logs it.
- **Validation.** `ValidateChange` has one rule per property, and field names match case
  insensitively.
- **Dates.** `ConvertToDateTime` turns a cell value into an optional date.
- **Records.** The record's default values and its `ToString` text.

The modules follow the program:

- `Models` holds the record.
- `Pages` holds the page: the boxed cell value `Value`, the field names, validation, the write
  into a record (`Assign`), the list updates (`Remove`, `Commit`) and the `GridEditing`
  class.
- `Numerals`, `Strings`, `Dates` and `Lists` model the parts of .NET the page calls:
  - 32-bit `int` arithmetic, and the text and parsing of `int` and `decimal` values;
  - `char.IsWhiteSpace`, `string.ToLower` and `string.Join`;
  - `DateTime`, its text and `DateTime.TryParse`;
  - `List.IndexOf` and `List.Remove`.

A few modelling choices apply throughout:

- A C# `decimal` is a number of units together with a scale (the number of fraction digits).
  The scale is kept, as .NET keeps it, so `25.0` prints as "25.0" and is not an `int`.
- Every conversion between values and text uses the invariant culture.
- The change log records each line's kind and the values it prints.

## Model

| member | source | states |
|---|---|---|
| Pages.GridEditing.constructor | Components/Pages/GridEditing.razor.cs:9-12 | A new page has no rows and an empty change log. |
| Pages.GridEditing.AddNewRow | Components/Pages/GridEditing.razor.cs:52-67 | The list grows by exactly one record, at the end, and earlier rows are unchanged. The new record has the next id, name "", age 25, salary 30000000, the given hire date, department "IT" and an empty skill list. Distinct ids stay distinct while the largest id is below the top of the `int` range. The log is unchanged. |
| Pages.GridEditing.DeleteRow | Components/Pages/GridEditing.razor.cs:69-73 | The new list is the old one without its first element equal to the record. Distinct ids stay distinct, and the log is unchanged. |
| Pages.GridEditing.OnCellChange | Components/Pages/GridEditing.razor.cs:76-205 | The edit is logged, then (a) an invalid value leaves the record and the list unchanged and adds a validation-failure entry; (b) an unknown property also leaves both unchanged and adds an unknown-property entry; (c) otherwise the record becomes `Assign` of the value. If a row has the record's id, the first such row is replaced and "updated at index k" then "committed" are logged. If none does, the list is unchanged and "not found" is logged. Distinct ids stay distinct. |
| Pages.GridEditing.ItemHasBeenCommitted | Components/Pages/GridEditing.razor.cs:255-263 | Appends one "committed" entry with the record's name and department. The rows are unchanged. |
| Pages.GridEditing.OnStartedEditingItem | Components/Pages/GridEditing.razor.cs:265-270 | Appends one "started editing" entry with the record's name. The rows are unchanged. |
| Pages.GridEditing.OnCancelledEditingItem | Components/Pages/GridEditing.razor.cs:272-277 | Appends one "cancelled editing" entry with the record's name. The rows are unchanged. |
| Pages.FieldOf | Components/Pages/GridEditing.razor.cs:212-244 | A property name selects a field exactly when it spells that field's name in some mixture of cases. It selects no field (the `default` case) exactly when it spells none of the six names. |
| Pages.FieldOfLowerCase | Components/Pages/GridEditing.razor.cs:212 | Lower-casing a property name first does not change the field it selects. |
| Pages.ValueText | Components/Pages/GridEditing.razor.cs:215-234 | `newValue?.ToString()` is null exactly for a null value, and text is its own text. Every other value prints as a non-empty text that starts with a character that is not white space and names no department. |
| Pages.ValueTextReadsBack | Components/Pages/GridEditing.razor.cs:215-234 | A whole number's text parses back as the same int and as the decimal with scale 0. A decimal's text parses back as the same decimal, and as an int exactly when it has no fraction digits and fits in 32 bits. A `DateTime`'s text parses back as the same instant to the second. No other combination of value kind and parser succeeds. |
| Pages.ValidateChange | Components/Pages/GridEditing.razor.cs:208-252 | Per field, both directions: a name passes exactly for a non-null value whose text is not all white space. An age passes exactly for an int in [18, 100], a decimal in that range with no fraction digits, or text parsing as such an int. A salary passes exactly for a number at least 0, or text parsing as one. A hire date passes exactly for a `DateTime`. A department passes exactly for text naming a listed department. Skills pass exactly for a string list of available skills. Any other name passes. |
| Pages.AgeRule | Components/Pages/GridEditing.razor.cs:217-220 | `int.TryParse` of the value's text gives an age in [18, 100] exactly for an int in that range, a decimal in that range with no fraction digits, or text that parses as such an int. |
| Pages.SalaryRule | Components/Pages/GridEditing.razor.cs:222-225 | `decimal.TryParse` of the value's text gives a salary of at least 0 exactly for a number at least 0, or text that parses as one. |
| Pages.DepartmentShape | Components/Pages/GridEditing.razor.cs:10 | Every department name is non-empty, at most 9 characters long, and starts with a capital letter. |
| Pages.ConvertToDateTime | Components/Pages/GridEditing.razor.cs:280-312 | Null gives no date, and a `DateTime` gives itself. Text gives what `DateTime.TryParse` makes of it. A number or a string list never gives a date. |
| Pages.ConvertToDateTimeCases | Components/Pages/GridEditing.razor.cs:280-305 | A `DateTime` converts to itself and null to no date. The text of a `DateTime` converts to the same instant, to the second. |
| Pages.Assign | Components/Pages/GridEditing.razor.cs:94-142 | The record written by the property switch differs from the input at most in the named property. An unknown name writes nothing. |
| Pages.AssignValidated | Components/Pages/GridEditing.razor.cs:85-142 | After validation passes, the write always happens and stores the validated value: the name exactly as given (not trimmed), the parsed age in [18, 100], the parsed salary of at least 0, the `DateTime` itself, the listed department, and the tag list of available skills. |
| Pages.AssignIdempotent | Components/Pages/GridEditing.razor.cs:94-142 | Writing the same value into the same property twice gives the record that one write gives. |
| Pages.AssignKeepsRules | Components/Pages/GridEditing.razor.cs:85-142 | A validated write keeps a record within the rules: a listed department, available skills, an age in [18, 100] and a non-negative salary. |
| Pages.FindIndexById | Components/Pages/GridEditing.razor.cs:145 | Returns the first position whose id matches, with no match before it, or -1 when no row has that id. |
| Pages.Commit | Components/Pages/GridEditing.razor.cs:145-148 | The length is unchanged. The row at the found index becomes the record, and every other row is unchanged. Without a match the list is unchanged. |
| Pages.CommitIdempotent | Components/Pages/GridEditing.razor.cs:145-148 | Committing the same record twice gives the list that one commit gives. |
| Pages.CommitKeepsIdsDistinct | Components/Pages/GridEditing.razor.cs:145-148 | Replacing the row with the record's id keeps the ids distinct. |
| Pages.EditTwiceIsEditOnce | Components/Pages/GridEditing.razor.cs:94-148 | Repeating an edit on the record the first edit produced leaves the record and the list as the first edit left them. |
| Pages.MaxId | Components/Pages/GridEditing.razor.cs:56 | The result is the id of some row and is at least every row's id. |
| Pages.NextId | Components/Pages/GridEditing.razor.cs:56 | An empty grid gives 1. Below the top of the `int` range the id is max + 1, which is larger than every existing id. When the largest id is `int.MaxValue`, the unchecked addition wraps the id to `int.MinValue`. |
| Pages.NewRow | Components/Pages/GridEditing.razor.cs:54-63 | The new row has the next id, name "", the given hire date, department "IT" and an empty skill list. It satisfies the validation rules for department, skills, age and salary, and its id is fresh while the largest id is below `int.MaxValue`. |
| Pages.AddKeepsIdsDistinct | Components/Pages/GridEditing.razor.cs:52-65 | Appending the new row keeps distinct ids distinct while the largest id is below `int.MaxValue`. |
| Pages.RemoveKeepsIdsDistinct | Components/Pages/GridEditing.razor.cs:69-71 | Removing a row keeps distinct ids distinct. |
| Pages.DeleteTwiceIsDeleteOnce | Components/Pages/GridEditing.razor.cs:69-71 | When the record occurs at most once in the list, deleting it a second time changes nothing. |
| Lists.IndexOf | Components/Pages/GridEditing.razor.cs:71 | Returns -1 exactly when the element is absent. Otherwise it returns a position that holds the element and has no earlier occurrence. |
| Lists.Remove | Components/Pages/GridEditing.razor.cs:71 | An absent element leaves the list unchanged. Otherwise the result is one shorter, and the rest keep their order, with the later elements shifted down by one. Either way the multiset loses one copy of the element. |
| Numerals.Wrap32 | Components/Pages/GridEditing.razor.cs:56 | The result is a 32-bit int congruent to the input modulo 2^32. An input already in range is unchanged. |
| Numerals.IntToString | Components/Pages/GridEditing.razor.cs:215-218 | An int's text is non-empty. It starts with a minus sign exactly for a negative int, and every other character is a digit. |
| Numerals.ParseInt | Components/Pages/GridEditing.razor.cs:218 | `int.TryParse` accepts only text that is a digit or a sign followed by nothing but digits. |
| Numerals.ParseIntToString | Components/Pages/GridEditing.razor.cs:218 | `int.TryParse` of an int's text gives the int back. |
| Numerals.DecimalToString | Components/Pages/GridEditing.razor.cs:223 | A decimal's text is non-empty. It starts with a minus sign exactly for a negative decimal, otherwise with a digit, holds nothing but digits and points after that, and has a point exactly when the scale is positive. |
| Numerals.ParseDecimal | Components/Pages/GridEditing.razor.cs:223 | `decimal.TryParse` accepts only text that starts with a digit, a point or a sign and holds nothing but digits and points after that. |
| Numerals.ParseDecimalToString | Components/Pages/GridEditing.razor.cs:223 | `decimal.TryParse` of a decimal's text gives back the same units and scale. |
| Numerals.IntToStringIsDecimalText | Components/Pages/GridEditing.razor.cs:223 | An int prints as the decimal with the same value and scale 0 prints. |
| Numerals.ParseIntOfDecimalText | Components/Pages/GridEditing.razor.cs:218 | The text of a decimal parses as an int exactly when the decimal has no fraction digits and fits in 32 bits. |
| Numerals.FractionTextIsNoInt | Components/Pages/GridEditing.razor.cs:218 | The text of a decimal with fraction digits is rejected by `int.TryParse`. |
| Numerals.NatToDigits | Models/EmployeeModel.cs:18 | The digits of a number denote that number and have no leading zero. |
| Strings.ToLower | Components/Pages/GridEditing.razor.cs:212 | Lower-casing keeps the length, leaves no ASCII capital letter, and changes no character other than an ASCII capital or the Kelvin sign. |
| Strings.IsNullOrWhiteSpace | Components/Pages/GridEditing.razor.cs:215 | `string.IsNullOrWhiteSpace` holds for null and empty text. For non-null text it holds exactly when `Trim` leaves it empty, and it fails exactly when some character is not white space. |
| Strings.Trim | Components/Pages/GridEditing.razor.cs:215 | `string.Trim` is the slice of the text between its leading and trailing white space, and only white space is cut off. It is empty exactly when the text is white space only; otherwise it starts and ends with a character that is not white space. |
| Strings.ToLowerMatches | Components/Pages/GridEditing.razor.cs:94 | Lower-casing yields an ASCII lower-case word exactly when the text spells that word in some mixture of cases. |
| Strings.ToLowerIdempotent | Components/Pages/GridEditing.razor.cs:212 | Lower-casing twice gives the same text as lower-casing once. |
| Strings.Join | Models/EmployeeModel.cs:18 | Joining no parts gives "", joining one part gives that part, and otherwise the length is the parts' total plus one separator between each pair. |
| Strings.JoinSplit | Models/EmployeeModel.cs:18 | Joining a list is joining its two halves with the separator between them. |
| Dates.Format | Components/Pages/GridEditing.razor.cs:215-234 | The text of a `DateTime` is always 19 characters long. |
| Dates.FormatFields | Components/Pages/GridEditing.razor.cs:215-234 | The text of a `DateTime` has the "MM/dd/yyyy HH:mm:ss" layout, with each field's zero-padded digits in its place. |
| Dates.ParseDate | Components/Pages/GridEditing.razor.cs:298 | `DateTime.TryParse` accepts only text with the "MM/dd/yyyy HH:mm:ss" separators in their places, and the parsed instant has no fraction of a second. |
| Dates.ParseFormat | Components/Pages/GridEditing.razor.cs:298-303 | `DateTime.TryParse` of an instant's text gives the instant back, to the whole second. |
| Dates.FormatParseDate | Components/Pages/GridEditing.razor.cs:298 | Every text that `DateTime.TryParse` accepts is the text of the instant it gives: the layout has one spelling per instant. |
| Models.Fresh | Models/EmployeeModel.cs:5-13 | A new record has name "" and department "", and an empty, non-null skill list. |
| Models.ToString | Models/EmployeeModel.cs:16-19 | The text starts with "ID: " and ends with "]". |
| Models.ToStringFieldOrder | Models/EmployeeModel.cs:18 | After "ID: " come the id's digits, ", Name: ", the name, ", Dept: ", the department and ", Skills: [", in that order and at those positions. |
| Models.ToStringOfFresh | Models/EmployeeModel.cs:16-19 | A new record prints as "ID: 0, Name: , Dept: , Skills: []". |
| Models.ToStringIgnoresUnprintedFields | Models/EmployeeModel.cs:16-19 | Age, salary and hire date do not affect the text. |
| Models.ToStringNullSkillsAsEmpty | Models/EmployeeModel.cs:18 | A null skill list prints exactly as an empty one. |
| Models.ToStringNoSkills | Models/EmployeeModel.cs:18 | A record with no skills, null or empty, ends its text with ", Skills: []". |
| Models.ToStringAppendSkill | Models/EmployeeModel.cs:18 | Skills print in list order: appending a skill inserts ", " and the skill just before the closing bracket, and leaves the rest of the text unchanged. |
| Models.ToStringAfterLabel | Models/EmployeeModel.cs:18 | After "ID: ", the text holds the id's digits, and a comma comes next. |
| Models.ToStringDeterminesId | Models/EmployeeModel.cs:18 | Two records with the same text have the same id. |

## Left out

- Blazor rendering (`ComponentBase`, `StateHasChanged`, `InvokeAsync`) is not modelled, and the `async` methods are modelled as synchronous. All of it is UI plumbing.
- `Console.WriteLine` output, stack traces, and the timestamps and emoji of the log lines are not modelled. A log entry keeps its kind and the values it prints.
- `DateTime.Now` is a clock read: `AddNewRow` takes it as the parameter `now`.
- Culture: every parse and print is modelled in the invariant culture.
  - `int.TryParse` and `decimal.TryParse` accept an optional leading sign and digits (a decimal also allows one point). .NET also accepts surrounding white space, and for a decimal thousands separators and a trailing sign ("5-"). The model rejects these.
  - `DateTime.TryParse` accepts only the "MM/dd/yyyy HH:mm:ss" layout that `DateTime.ToString` prints.
  - Strings.ToLower models the invariant culture's simple case mapping for what the field names need: 'A' to 'Z' become lower case, and the Kelvin sign becomes 'k'. Every other character, the dotted capital I (U+0130) among them, is kept. Current-culture casing, such as Turkish dotless i, is not modelled.
- The range and precision of a .NET `decimal` (96-bit units, at most 28 fraction digits) are not modelled, so the model does not reject out-of-range decimals.
- The `try`/`catch` blocks are not modelled. The property name and the record are assumed non-null. With a null one the C# code throws inside the `try`, and the logged exception is not modelled.
- The seed rows of `OnInitialized` are sample data and are not modelled.
- The database save planned in `ItemHasBeenCommitted` is neither implemented in the source nor modelled.
- Reference identity is modelled as value equality. `List.Remove` compares records by reference, and the model compares them by value.
- Pages.GridEditing.OnCellChange: the C# method writes into `item` itself. When `item` is the object shown in the grid, its row changes even where the list is not updated. The model returns the new record as `updated`, and the list changes only at the `FindIndex` position.
- Pages.ValidateChange does not take the record parameter, which the C# method never reads.
- The `value.GetType() == typeof(DateTime?)` branch of `ConvertToDateTime` can never be taken, because a boxed nullable is either null or a boxed `DateTime`, so it is not modelled.
- The department and skill lists are never changed, so they are module constants.
- A C# `char` is a UTF-16 code unit, while a Dafny `char` is a Unicode scalar value. Surrogate pairs are not modelled.
- Pages.AddKeepsIdsDistinct: distinct ids are proved to stay distinct only while the largest id is below `int.MaxValue`. At the top of the range the new id wraps to `int.MinValue` (Pages.NextId), and it may then equal an existing id.
- Pages.ValueText: every string list prints as the type name of `List<string>`. An `IEnumerable<string>` of another type, such as an array, would print its own type name. The model cannot tell these apart.
