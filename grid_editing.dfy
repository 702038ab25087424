/**
 * The employee-grid page: its two reference lists, the single-field edit pipeline
 * (validation, then the write into the record, then the replacement in the list), and the
 * grid controller that owns the rows and the change log.
 */
module Pages {
  import opened Wrappers
  import opened Numerals
  import opened Dates
  import opened Strings
  import opened Lists
  import opened Models

  /** The departments a record may belong to. */
  const Departments: seq<string> := ["IT", "HR", "Finance", "Marketing", "Sales"]

  /** The skill tags a record may carry. */
  const AvailableSkills: seq<string> :=
    ["C#", "JavaScript", "Python", "SQL", "React", "Angular", "Vue", "Docker", "Kubernetes", "AWS"]

  // ----- the boxed new value of a cell -----

  /**
   * The new value of a cell edit as OnCellChange receives it, boxed as `object`: one
   * alternative per overload. A null `DateTime?` boxes to Null; the `IEnumerable<string>`
   * and `List<string>` overloads both give Tags.
   */
  datatype Value =
    | Null
    | Text(s: string)
    | Int(n: Int32)
    | Dec(d: Decimal)
    | Date(t: Instant)
    | Tags(tags: seq<string>)

  /**
   * What `List<string>.ToString()` prints: the name of its type. It is written as two
   * literals so that the verifier can index the text.
   */
  const ListTypeName: string := "System.Collections.Generic." + "List`1[System.String]"

  /**
   * `newValue?.ToString()`: None exactly for null, text as it is, and for every other value
   * an invariant-culture text that starts with a visible character and names no department.
   */
  function ValueText(v: Value): (t: Option<string>)
    ensures t.None? <==> v.Null?
    ensures v.Text? ==> t == Some(v.s)
    ensures !v.Null? && !v.Text? ==> |t.value| > 0 && !IsWhiteSpace(t.value[0]) && t.value !in Departments
  {
    match v
    case Null => None
    case Text(s) => Some(s)
    case Int(n) => NumberTextIsNoName(IntToString(n)); Some(IntToString(n))
    case Dec(d) => NumberTextIsNoName(DecimalToString(d)); Some(DecimalToString(d))
    case Date(t) =>
      var s := Format(t);
      Pow10Values();
      assert s[0] == PadDigits(t.month, 2)[0];
      NumberTextIsNoName(s);
      Some(s)
    case Tags(_) =>
      assert ListTypeName[0] == 'S' && |ListTypeName| == 48;
      Some(ListTypeName)
  }

  /** A text starting with a digit or a minus sign starts with a visible character and names no department. */
  lemma NumberTextIsNoName(s: string)
    requires |s| > 0 && (IsDigit(s[0]) || s[0] == '-')
    ensures !IsWhiteSpace(s[0]) && s !in Departments
  {
    if s in Departments {
      DepartmentShape(s);
    }
  }

  /**
   * What the parsers make of the text of a value: a number reads back as itself (a decimal
   * as an int only when it has no fraction digits and fits), the text of a DateTime reads
   * back as the same instant to the second, and no other combination parses.
   */
  lemma ValueTextReadsBack(v: Value)
    ensures !v.Null? && !v.Text? ==>
      var t := ValueText(v).value;
      match v
      case Int(n) => ParseInt(t) == Some(n) && ParseDecimal(t) == Some(Decimal(n, 0)) && ParseDate(t).None?
      case Dec(d) =>
        && ParseInt(t) == (if d.scale == 0 && MinInt32 <= d.units <= MaxInt32 then Some(d.units as Int32) else None)
        && ParseDecimal(t) == Some(d) && ParseDate(t).None?
      case Date(u) => ParseDate(t) == Some(u.(ticks := 0)) && ParseInt(t).None? && ParseDecimal(t).None?
      case Tags(_) => ParseInt(t).None? && ParseDecimal(t).None? && ParseDate(t).None?
      case _ => true
  {
    match v
    case Null =>
    case Text(_) =>
    case Int(n) => IntTextReadsBack(n);
    case Dec(d) => DecimalTextReadsBack(d);
    case Date(u) => DateTextReadsBack(u);
    case Tags(_) => TagsTextReadsBack();
  }

  lemma IntTextReadsBack(n: Int32)
    ensures var t := IntToString(n);
      ParseInt(t) == Some(n) && ParseDecimal(t) == Some(Decimal(n, 0)) && ParseDate(t).None?
  {
    var t := IntToString(n);
    ParseIntToString(n);
    IntToStringIsDecimalText(n);
    ParseDecimalToString(Decimal(n, 0));
    if |t| == 19 {
      assert IsDigit(t[2]);
    }
  }

  lemma DecimalTextReadsBack(d: Decimal)
    ensures var t := DecimalToString(d);
      && ParseInt(t) == (if d.scale == 0 && MinInt32 <= d.units <= MaxInt32 then Some(d.units as Int32) else None)
      && ParseDecimal(t) == Some(d) && ParseDate(t).None?
  {
    var t := DecimalToString(d);
    ParseIntOfDecimalText(d);
    ParseDecimalToString(d);
    if |t| == 19 {
      assert IsDecimalChar(t[2]);
    }
  }

  lemma DateTextReadsBack(u: Instant)
    ensures var t := Format(u);
      ParseDate(t) == Some(u.(ticks := 0)) && ParseInt(t).None? && ParseDecimal(t).None?
  {
    ParseFormat(u);
    assert Format(u)[2] == '/';
  }

  lemma TagsTextReadsBack()
    ensures ParseInt(ListTypeName).None? && ParseDecimal(ListTypeName).None? && ParseDate(ListTypeName).None?
  {
    assert ListTypeName[1] == 'y' && ListTypeName[2] == 's';
  }

  /** `int.TryParse(newValue?.ToString(), out ...)`: a null text does not parse. */
  function TryParseInt(text: Option<string>): Option<Int32> {
    if text.None? then None else ParseInt(text.value)
  }

  /** `decimal.TryParse(newValue?.ToString(), out ...)`: a null text does not parse. */
  function TryParseDecimal(text: Option<string>): Option<Decimal> {
    if text.None? then None else ParseDecimal(text.value)
  }

  // ----- field names -----

  /** The property a cell edit names, after lower-casing; Unknown for every other name. */
  datatype Field = Name | Age | Salary | HireDate | Department | Skills | Unknown

  /**
   * The `switch (propertyName.ToLower())` of ValidateChange and OnCellChange. Field names
   * match whatever their case: a property name selects a field exactly when it spells that
   * field's lower-case name in some mixture of cases, and Unknown when it spells none of them.
   */
  function FieldOf(propertyName: string): (f: Field)
    ensures f == Name <==> IsCaseVariantOf(propertyName, "name")
    ensures f == Age <==> IsCaseVariantOf(propertyName, "age")
    ensures f == Salary <==> IsCaseVariantOf(propertyName, "salary")
    ensures f == HireDate <==> IsCaseVariantOf(propertyName, "hiredate")
    ensures f == Department <==> IsCaseVariantOf(propertyName, "department")
    ensures f == Skills <==> IsCaseVariantOf(propertyName, "skills")
    ensures f == Unknown <==>
      && !IsCaseVariantOf(propertyName, "name") && !IsCaseVariantOf(propertyName, "age")
      && !IsCaseVariantOf(propertyName, "salary") && !IsCaseVariantOf(propertyName, "hiredate")
      && !IsCaseVariantOf(propertyName, "department") && !IsCaseVariantOf(propertyName, "skills")
  {
    ToLowerMatches(propertyName, "name");
    ToLowerMatches(propertyName, "age");
    ToLowerMatches(propertyName, "salary");
    ToLowerMatches(propertyName, "hiredate");
    ToLowerMatches(propertyName, "department");
    ToLowerMatches(propertyName, "skills");
    var p := ToLower(propertyName);
    if p == "name" then Name
    else if p == "age" then Age
    else if p == "salary" then Salary
    else if p == "hiredate" then HireDate
    else if p == "department" then Department
    else if p == "skills" then Skills
    else Unknown
  }

  /** "Age", "AGE" and "age" select the same field: lower-casing first changes nothing. */
  lemma FieldOfLowerCase(p: string)
    ensures FieldOf(ToLower(p)) == FieldOf(p)
  {
    ToLowerIdempotent(p);
  }

  // ----- validation -----

  /**
   * `ValidateChange`: whether the new value is acceptable for the named property. (The
   * record itself, which the source also passes, is not consulted.)
   *  - A name: any value but null whose text is not all white space; numbers, dates and
   *    tag lists print as visible text and pass.
   *  - An age: a whole number in [18, 100], a decimal with no fraction digits in that range,
   *    or text that parses as a 32-bit integer in it; nothing else.
   *  - A salary: a number at least 0, or text that parses as such a decimal; nothing else.
   *  - A hire date: only a DateTime value, never text.
   *  - A department: only text naming one of the departments.
   *  - Skills: only a tag list whose every tag is an available skill (the empty list too).
   *  - Any other property name passes.
   */
  function ValidateChange(newValue: Value, propertyName: string): (ok: bool)
    ensures FieldOf(propertyName) == Name ==>
      (ok <==> !newValue.Null? && (newValue.Text? ==> exists i :: 0 <= i < |newValue.s| && !IsWhiteSpace(newValue.s[i])))
    ensures FieldOf(propertyName) == Age ==>
      (ok <==> match newValue
               case Int(n) => 18 <= n <= 100
               case Dec(d) => d.scale == 0 && 18 <= d.units <= 100
               case Text(s) => ParseInt(s).Some? && 18 <= ParseInt(s).value <= 100
               case _ => false)
    ensures FieldOf(propertyName) == Salary ==>
      (ok <==> match newValue
               case Int(n) => n >= 0
               case Dec(d) => d.units >= 0
               case Text(s) => ParseDecimal(s).Some? && IsNonNegative(ParseDecimal(s).value)
               case _ => false)
    ensures FieldOf(propertyName) == HireDate ==> (ok <==> newValue.Date?)
    ensures FieldOf(propertyName) == Department ==> (ok <==> newValue.Text? && newValue.s in Departments)
    ensures FieldOf(propertyName) == Skills ==>
      (ok <==> newValue.Tags? && forall i :: 0 <= i < |newValue.tags| ==> newValue.tags[i] in AvailableSkills)
    ensures FieldOf(propertyName) == Unknown ==> ok
  {
    var text := ValueText(newValue);
    match FieldOf(propertyName)
    case Name => !IsNullOrWhiteSpace(text)
    case Age => AgeRule(newValue); (var age := TryParseInt(text); age.Some? && 18 <= age.value <= 100)
    case Salary => SalaryRule(newValue); (var salary := TryParseDecimal(text); salary.Some? && IsNonNegative(salary.value))
    case HireDate => newValue.Date?
    case Department => !IsNullOrEmpty(text) && text.value in Departments
    case Skills => newValue.Tags? && forall s :: s in newValue.tags ==> s in AvailableSkills
    case Unknown => true
  }

  /** Which values parse as an age in [18, 100]. */
  lemma AgeRule(v: Value)
    ensures (var age := TryParseInt(ValueText(v)); age.Some? && 18 <= age.value <= 100) <==>
      match v
      case Int(n) => 18 <= n <= 100
      case Dec(d) => d.scale == 0 && 18 <= d.units <= 100
      case Text(s) => ParseInt(s).Some? && 18 <= ParseInt(s).value <= 100
      case _ => false
  {
    ValueTextReadsBack(v);
  }

  /** Which values parse as a salary of at least 0. */
  lemma SalaryRule(v: Value)
    ensures (var salary := TryParseDecimal(ValueText(v)); salary.Some? && IsNonNegative(salary.value)) <==>
      match v
      case Int(n) => n >= 0
      case Dec(d) => d.units >= 0
      case Text(s) => ParseDecimal(s).Some? && IsNonNegative(ParseDecimal(s).value)
      case _ => false
  {
    ValueTextReadsBack(v);
  }

  /** Every department name is short and starts with a capital letter. */
  lemma DepartmentShape(d: string)
    requires d in Departments
    ensures 0 < |d| <= 9 && 'A' <= d[0] <= 'Z'
  {
  }

  // ----- the write into the record -----

  /**
   * `ConvertToDateTime`: null gives no date, a DateTime is taken as it is, and text is
   * parsed; the text of a number or of a tag list is never a date.
   */
  function ConvertToDateTime(value: Value): (r: Option<Instant>)
    ensures value.Null? ==> r.None?
    ensures value.Date? ==> r == Some(value.t)
    ensures value.Text? ==> r == ParseDate(value.s)
    ensures value.Int? || value.Dec? || value.Tags? ==> r.None?
  {
    ValueTextReadsBack(value);
    match value
    case Null => None
    case Date(t) => Some(t)
    case Text(s) => ParseDate(s)
    case Int(n) => ParseDate(IntToString(n))
    case Dec(d) => ParseDate(DecimalToString(d))
    case Tags(_) => ParseDate(ListTypeName)
  }

  /** A DateTime converts to itself, the text of a DateTime to the same instant to the second, and null to nothing. */
  lemma ConvertToDateTimeCases(t: Instant)
    ensures ConvertToDateTime(Date(t)) == Some(t)
    ensures ConvertToDateTime(Text(Format(t))) == Some(t.(ticks := 0))
    ensures ConvertToDateTime(Null) == None
  {
    ParseFormat(t);
  }

  /** a and b agree on every property, except possibly the one f names. */
  predicate AgreeExcept(a: EmployeeModel, b: EmployeeModel, f: Field) {
    && a.id == b.id
    && (f != Name ==> a.name == b.name)
    && (f != Age ==> a.age == b.age)
    && (f != Salary ==> a.salary == b.salary)
    && (f != HireDate ==> a.hireDate == b.hireDate)
    && (f != Department ==> a.department == b.department)
    && (f != Skills ==> a.skills == b.skills)
  }

  /**
   * The write of OnCellChange's switch: the record with property f set from the value. A
   * value that does not convert leaves the property as it was; an Unknown name writes nothing.
   */
  function Assign(item: EmployeeModel, newValue: Value, f: Field): (r: EmployeeModel)
    ensures AgreeExcept(item, r, f)
    ensures f == Unknown ==> r == item
  {
    var text := ValueText(newValue);
    match f
    case Name => item.(name := if text.Some? then text.value else "")
    case Age => (var age := TryParseInt(text); if age.Some? then item.(age := age.value) else item)
    case Salary => (var salary := TryParseDecimal(text); if salary.Some? then item.(salary := salary.value) else item)
    case HireDate => (var date := ConvertToDateTime(newValue); if date.Some? then item.(hireDate := date.value) else item)
    case Department => item.(department := if text.Some? then text.value else "")
    case Skills => item.(skills := Some(if newValue.Tags? then newValue.tags else []))
    case Unknown => item
  }

  /**
   * After a value passes validation, the write always happens and stores what was validated:
   * the name as given (not trimmed), the parsed age and salary, the DateTime itself, the
   * department, and the tag list.
   */
  lemma AssignValidated(item: EmployeeModel, v: Value, p: string)
    requires ValidateChange(v, p) && FieldOf(p) != Unknown
    ensures var r := Assign(item, v, FieldOf(p));
      match FieldOf(p)
      case Name => Some(r.name) == ValueText(v) && !IsNullOrWhiteSpace(Some(r.name))
      case Age => TryParseInt(ValueText(v)) == Some(r.age) && 18 <= r.age <= 100
      case Salary => TryParseDecimal(ValueText(v)) == Some(r.salary) && IsNonNegative(r.salary)
      case HireDate => v == Date(r.hireDate)
      case Department => v == Text(r.department) && r.department in Departments
      case Skills => v == Tags(SkillsOrEmpty(r.skills)) && r.skills.Some?
                     && forall s :: s in SkillsOrEmpty(r.skills) ==> s in AvailableSkills
      case Unknown => false
  {
  }

  /** Writing the same value into the same property twice gives the record that writing once gives. */
  lemma AssignIdempotent(item: EmployeeModel, v: Value, f: Field)
    ensures Assign(Assign(item, v, f), v, f) == Assign(item, v, f)
  {
  }

  /** The rules on a record's reference-list and numeric properties, which validation checks at write time. */
  predicate FollowsRules(e: EmployeeModel) {
    && e.department in Departments
    && (forall s :: s in SkillsOrEmpty(e.skills) ==> s in AvailableSkills)
    && 18 <= e.age <= 100
    && IsNonNegative(e.salary)
  }

  /** A validated write keeps a record that follows the rules following them. */
  lemma AssignKeepsRules(item: EmployeeModel, v: Value, p: string)
    requires FollowsRules(item) && ValidateChange(v, p)
    ensures FollowsRules(Assign(item, v, FieldOf(p)))
  {
    if FieldOf(p) != Unknown {
      AssignValidated(item, v, p);
    }
  }

  // ----- the rows -----

  /** `employees.FindIndex(e => e.Id == id)`: the first position holding that id, or -1. */
  function FindIndexById(s: seq<EmployeeModel>, id: int): (k: int)
    ensures -1 <= k < |s|
    ensures k >= 0 ==> s[k].id == id && forall j :: 0 <= j < k ==> s[j].id != id
    ensures k < 0 ==> forall j :: 0 <= j < |s| ==> s[j].id != id
  {
    if |s| == 0 then -1
    else if s[0].id == id then 0
    else
      var k := FindIndexById(s[1..], id);
      if k < 0 then -1 else k + 1
  }

  /** `employees.Max(x => x.Id)` */
  function MaxId(s: seq<EmployeeModel>): (m: Int32)
    requires |s| > 0
    ensures exists i :: 0 <= i < |s| && s[i].id == m
    ensures forall i :: 0 <= i < |s| ==> s[i].id <= m
  {
    if |s| == 1 then s[0].id
    else
      var m := MaxId(s[1..]);
      assert forall i :: 1 <= i < |s| ==> s[i] == s[1..][i - 1];
      if s[0].id < m then m else s[0].id
  }

  /**
   * The id AddNewRow gives a new row: 1 for an empty grid; otherwise one more than the
   * largest id, which is larger than every id in the grid, except at the top of the int
   * range, where C#'s unchecked addition wraps it round to the smallest int.
   */
  function NextId(s: seq<EmployeeModel>): (id: Int32)
    ensures |s| == 0 ==> id == 1
    ensures |s| > 0 && MaxId(s) < MaxInt32 ==> id == MaxId(s) + 1
    ensures |s| == 0 || MaxId(s) < MaxInt32 ==> forall i :: 0 <= i < |s| ==> s[i].id < id
    ensures |s| > 0 && MaxId(s) == MaxInt32 ==> id == MinInt32
  {
    if |s| > 0 then
      assert MaxId(s) == MaxInt32 ==> MaxId(s) + 1 - MinInt32 == 0x1_0000_0000;
      Wrap32(MaxId(s) + 1)
    else 1
  }

  /** No two rows share an id. */
  predicate DistinctIds(s: seq<EmployeeModel>) {
    forall i, j :: 0 <= i < j < |s| ==> s[i].id != s[j].id
  }

  /**
   * The row AddNewRow appends: the next id, blank name, age 25, salary 30000000, the given
   * hire date, the first department and no skills. It follows the record rules, and its id
   * is fresh as long as the largest id is below the top of the int range.
   */
  function NewRow(s: seq<EmployeeModel>, now: Instant): (e: EmployeeModel)
    ensures e.id == NextId(s) && e.hireDate == now
    ensures e.name == "" && e.department == "IT" && e.skills == Some([])
    ensures FollowsRules(e)
    ensures |s| == 0 || MaxId(s) < MaxInt32 ==> forall i :: 0 <= i < |s| ==> s[i].id < e.id
  {
    EmployeeModel(NextId(s), "", 25, Decimal(30000000, 0), now, Departments[0], Some([]))
  }

  /** Appending the new row keeps the ids distinct, as long as the largest id is below the top of the int range. */
  lemma AddKeepsIdsDistinct(s: seq<EmployeeModel>, now: Instant)
    requires DistinctIds(s)
    requires |s| == 0 || MaxId(s) < MaxInt32
    ensures DistinctIds(s + [NewRow(s, now)])
  {
    AppendLargerId(s, NewRow(s, now));
  }

  lemma AppendLargerId(s: seq<EmployeeModel>, e: EmployeeModel)
    requires DistinctIds(s)
    requires forall i :: 0 <= i < |s| ==> s[i].id < e.id
    ensures DistinctIds(s + [e])
  {
    var t := s + [e];
    forall i, j | 0 <= i < j < |t| ensures t[i].id != t[j].id {
      if j < |s| {
        assert t[i] == s[i] && t[j] == s[j];
      } else {
        assert t[i] == s[i] && t[j] == e;
      }
    }
  }

  /** Removing a row keeps the ids distinct. */
  lemma RemoveKeepsIdsDistinct(s: seq<EmployeeModel>, x: EmployeeModel)
    requires DistinctIds(s)
    ensures DistinctIds(Remove(s, x))
  {
    var r := Remove(s, x);
    if x in s {
      var k := IndexOf(s, x);
      forall i, j | 0 <= i < j < |r| ensures r[i].id != r[j].id {
        var i' := if i < k then i else i + 1;
        var j' := if j < k then j else j + 1;
        assert r[i] == s[i'] && r[j] == s[j'] && i' < j';
      }
    }
  }

  /** When the record occurs at most once, deleting it a second time changes nothing. */
  lemma DeleteTwiceIsDeleteOnce(s: seq<EmployeeModel>, x: EmployeeModel)
    requires multiset(s)[x] <= 1
    ensures Remove(Remove(s, x), x) == Remove(s, x)
  {
    assert multiset(Remove(s, x))[x] == 0;
  }

  /**
   * The list part of a committed edit: the first row with the record's id is replaced by
   * the record; without such a row the list is unchanged.
   */
  function Commit(s: seq<EmployeeModel>, u: EmployeeModel): (r: seq<EmployeeModel>)
    ensures |r| == |s|
    ensures FindIndexById(s, u.id) < 0 ==> r == s
    ensures var k := FindIndexById(s, u.id);
      k >= 0 ==> r[k] == u && forall j :: 0 <= j < |s| && j != k ==> r[j] == s[j]
  {
    var k := FindIndexById(s, u.id);
    if k >= 0 then s[k := u] else s
  }

  /** Committing the same record twice leaves the list as committing it once does. */
  lemma CommitIdempotent(s: seq<EmployeeModel>, u: EmployeeModel)
    ensures Commit(Commit(s, u), u) == Commit(s, u)
  {
    var k := FindIndexById(s, u.id);
    if k >= 0 {
      var t := Commit(s, u);
      assert forall j :: 0 <= j < k ==> t[j] == s[j];
      assert FindIndexById(t, u.id) == k;
    }
  }

  /** Committing keeps the ids distinct: the replaced row had the record's id. */
  lemma CommitKeepsIdsDistinct(s: seq<EmployeeModel>, u: EmployeeModel)
    requires DistinctIds(s)
    ensures DistinctIds(Commit(s, u))
  {
  }

  /**
   * Repeating a valid edit (the same value, the same property) on the record the first
   * edit produced leaves both the record and the list as the first edit left them.
   */
  lemma EditTwiceIsEditOnce(s: seq<EmployeeModel>, item: EmployeeModel, v: Value, f: Field)
    ensures var u := Assign(item, v, f);
      Assign(u, v, f) == u && Commit(Commit(s, u), u) == Commit(s, u)
  {
    AssignIdempotent(item, v, f);
    CommitIdempotent(s, Assign(item, v, f));
  }

  // ----- the change log -----

  /** One line of the change log, by kind, with the values the line prints. */
  datatype LogEntry =
    | CellChange(id: int, propertyName: string, newValue: Value)
    | ValidationFailed(propertyName: string)
    | UnknownProperty(propertyName: string)
    | Updated(index: nat, name: string)
    | Committed(name: string, department: string)
    | NotFound(id: int)
    | StartedEditing(name: string)
    | CancelledEditing(name: string)

  /** Two appends of one entry each append both. */
  lemma AppendTwo<T>(a: seq<T>, x: T, y: T)
    ensures a + [x] + [y] == a + [x, y]
  {
  }

  // ----- the controller -----

  /** The grid page's state: the rows, in display order, and the append-only change log. */
  class GridEditing {
    var employees: seq<EmployeeModel>
    var changeLogs: seq<LogEntry>

    /** A page before initialisation: no rows and an empty log. */
    constructor ()
      ensures employees == [] && changeLogs == []
    {
      employees := [];
      changeLogs := [];
    }

    /**
     * Appends a row with the next id, blank name, age 25, salary 30000000, hire date `now`,
     * the first department and no skills. Earlier rows and the log are untouched.
     */
    method AddNewRow(now: Instant)
      modifies this
      ensures |employees| == |old(employees)| + 1
      ensures employees[..|old(employees)|] == old(employees)
      ensures var e := employees[|old(employees)|];
        && e.id == NextId(old(employees))
        && e.name == "" && e.age == 25 && e.salary == Decimal(30000000, 0) && e.hireDate == now
        && e.department == Departments[0] == "IT" && e.skills == Some([])
      ensures DistinctIds(old(employees)) && (old(employees) == [] || MaxId(old(employees)) < MaxInt32)
              ==> DistinctIds(employees)
      ensures changeLogs == old(changeLogs)
    {
      if DistinctIds(employees) && (employees == [] || MaxId(employees) < MaxInt32) {
        AddKeepsIdsDistinct(employees, now);
      }
      employees := employees + [NewRow(employees, now)];
    }

    /** Removes the first row equal to `employee`; does nothing when there is none. */
    method DeleteRow(employee: EmployeeModel)
      modifies this
      ensures employees == Remove(old(employees), employee)
      ensures DistinctIds(old(employees)) ==> DistinctIds(employees)
      ensures changeLogs == old(changeLogs)
    {
      if DistinctIds(employees) {
        RemoveKeepsIdsDistinct(employees, employee);
      }
      employees := Remove(employees, employee);
    }

    /** The commit hook: logs the committed record's name and department. */
    method ItemHasBeenCommitted(item: EmployeeModel)
      modifies this
      ensures changeLogs == old(changeLogs) + [Committed(item.name, item.department)]
      ensures employees == old(employees)
    {
      changeLogs := changeLogs + [Committed(item.name, item.department)];
    }

    /** The hook for the start of an edit session: logs the record's name. */
    method OnStartedEditingItem(item: EmployeeModel)
      modifies this
      ensures changeLogs == old(changeLogs) + [StartedEditing(item.name)]
      ensures employees == old(employees)
    {
      changeLogs := changeLogs + [StartedEditing(item.name)];
    }

    /** The hook for a cancelled edit session: logs the record's name. */
    method OnCancelledEditingItem(item: EmployeeModel)
      modifies this
      ensures changeLogs == old(changeLogs) + [CancelledEditing(item.name)]
      ensures employees == old(employees)
    {
      changeLogs := changeLogs + [CancelledEditing(item.name)];
    }

    /**
     * `OnCellChange`: logs the edit; validates the value; writes it into the record, which
     * is returned as `updated`; and puts the record in place of the first row with its id.
     *  - Invalid value: record and rows unchanged, log gets the edit and a validation failure.
     *  - Unknown property: record and rows unchanged, log gets the edit and "unknown property".
     *  - Otherwise the record differs from `item` only in the named property; if a row has
     *    its id, the first such row is replaced and the log gets the edit, the update at that
     *    index and the commit; if not, the rows are unchanged and the log gets the edit and
     *    "not found". The record is changed in both cases.
     */
    method OnCellChange(item: EmployeeModel, newValue: Value, propertyName: string) returns (updated: EmployeeModel)
      modifies this
      ensures var head := old(changeLogs) + [CellChange(item.id, propertyName, newValue)];
        var f := FieldOf(propertyName);
        if !ValidateChange(newValue, propertyName) then
          updated == item && employees == old(employees) && changeLogs == head + [ValidationFailed(propertyName)]
        else if f == Unknown then
          updated == item && employees == old(employees) && changeLogs == head + [UnknownProperty(propertyName)]
        else
          var k := FindIndexById(old(employees), item.id);
          && updated == Assign(item, newValue, f)
          && employees == Commit(old(employees), updated)
          && changeLogs == head + if k >= 0
               then [Updated(k, updated.name), Committed(updated.name, updated.department)]
               else [NotFound(item.id)]
      ensures DistinctIds(old(employees)) ==> DistinctIds(employees)
    {
      changeLogs := changeLogs + [CellChange(item.id, propertyName, newValue)];

      if !ValidateChange(newValue, propertyName) {
        changeLogs := changeLogs + [ValidationFailed(propertyName)];
        return item;
      }

      var text := ValueText(newValue);
      var field := FieldOf(propertyName);
      updated := item;
      match field {
        case Name =>
          updated := updated.(name := if text.Some? then text.value else "");
        case Age =>
          var age := TryParseInt(text);
          if age.Some? {
            updated := updated.(age := age.value);
          }
        case Salary =>
          var salary := TryParseDecimal(text);
          if salary.Some? {
            updated := updated.(salary := salary.value);
          }
        case HireDate =>
          var dateValue := ConvertToDateTime(newValue);
          if dateValue.Some? {
            updated := updated.(hireDate := dateValue.value);
          }
        case Department =>
          updated := updated.(department := if text.Some? then text.value else "");
        case Skills =>
          if newValue.Tags? {
            updated := updated.(skills := Some(newValue.tags));
          } else {
            updated := updated.(skills := Some([]));
          }
        case Unknown =>
          changeLogs := changeLogs + [UnknownProperty(propertyName)];
          return item;
      }
      assert updated == Assign(item, newValue, field);
      assert updated.id == item.id;
      if DistinctIds(employees) {
        CommitKeepsIdsDistinct(employees, updated);
      }
      ghost var before, head := employees, changeLogs;
      var index := FindIndexById(employees, updated.id);
      if index >= 0 {
        employees := employees[index := updated];
        assert employees == Commit(before, updated);
        changeLogs := changeLogs + [Updated(index, updated.name)];
        ItemHasBeenCommitted(updated);
        AppendTwo(head, Updated(index, updated.name), Committed(updated.name, updated.department));
      } else {
        changeLogs := changeLogs + [NotFound(updated.id)];
      }
    }
  }
}
