/** The employee record shown in each row of the grid, and its debugging text. */
module Models {
  import opened Wrappers
  import opened Numerals
  import opened Dates
  import opened Strings

  /**
   * An employee record. `skills` is None when the record's list reference is null, which
   * the record's own initialiser never produces but other code may assign.
   */
  datatype EmployeeModel = EmployeeModel(
    id: Int32,
    name: string,
    age: Int32,
    salary: Decimal,
    hireDate: Instant,
    department: string,
    skills: Option<seq<string>>)

  /** `new EmployeeModel()`: the property initialisers, and each other property at its type's default. */
  function Fresh(): (e: EmployeeModel)
    ensures e.name == "" && e.department == ""
    ensures e.skills == Some([])
  {
    EmployeeModel(0, "", 0, Decimal(0, 0), MinValue, "", Some([]))
  }

  /** The list ToString prints: a null list prints as an empty one. */
  function SkillsOrEmpty(skills: Option<seq<string>>): seq<string> {
    match skills
    case None => []
    case Some(xs) => xs
  }

  /**
   * `EmployeeModel.ToString()`: id, name, department and the comma-separated skills,
   * between the opening "ID: " and the closing ']'.
   */
  function ToString(e: EmployeeModel): (s: string)
    ensures |s| > 4 && s[..4] == "ID: " && s[|s| - 1] == ']'
  {
    "ID: " + IntToString(e.id) + ", Name: " + e.name + ", Dept: " + e.department
      + ", Skills: [" + Join(", ", SkillsOrEmpty(e.skills)) + "]"
  }

  /**
   * The fields print in their order: after "ID: " come the id's digits, then ", Name: "
   * and the name, then ", Dept: " and the department, then ", Skills: [".
   */
  lemma ToStringFieldOrder(e: EmployeeModel)
    ensures var s, k, n, d := ToString(e), |IntToString(e.id)|, |e.name|, |e.department|;
      && |s| > 31 + k + n + d
      && s[4..4 + k] == IntToString(e.id)
      && s[4 + k..12 + k] == ", Name: "
      && s[12 + k..12 + k + n] == e.name
      && s[12 + k + n..20 + k + n] == ", Dept: "
      && s[20 + k + n..20 + k + n + d] == e.department
      && s[20 + k + n + d..31 + k + n + d] == ", Skills: ["
  {
    Layout(IntToString(e.id), e.name, e.department, Join(", ", SkillsOrEmpty(e.skills)));
  }

  /** Where each part sits in a text laid out as ToString lays out a record. */
  lemma Layout(id: string, name: string, dept: string, skills: string)
    ensures var s, k, n, d := "ID: " + id + ", Name: " + name + ", Dept: " + dept + ", Skills: [" + skills + "]",
                              |id|, |name|, |dept|;
      && |s| == 32 + k + n + d + |skills|
      && s[4..4 + k] == id
      && s[4 + k..12 + k] == ", Name: "
      && s[12 + k..12 + k + n] == name
      && s[12 + k + n..20 + k + n] == ", Dept: "
      && s[20 + k + n..20 + k + n + d] == dept
      && s[20 + k + n + d..31 + k + n + d] == ", Skills: ["
  {
    var p1 := "ID: " + id;
    var p2 := p1 + ", Name: ";
    var p3 := p2 + name;
    var p4 := p3 + ", Dept: ";
    var p5 := p4 + dept;
    var p6 := p5 + ", Skills: [";
    assert p1[4..] == id;
    assert p2[|p1|..] == ", Name: " && p2[..|p1|] == p1;
    assert p3[|p2|..] == name && p3[..|p2|] == p2;
    assert p4[|p3|..] == ", Dept: " && p4[..|p3|] == p3;
    assert p5[|p4|..] == dept && p5[..|p4|] == p4;
    assert p6[|p5|..] == ", Skills: [" && p6[..|p5|] == p5;
    var s := p6 + skills + "]";
    assert s[..|p6|] == p6;
  }

  /** A fresh record prints with id 0, blank name and department, and no skills. */
  lemma ToStringOfFresh()
    ensures ToString(Fresh()) == "ID: 0, Name: , Dept: , Skills: []"
  {
    var e := Fresh();
    assert IntToString(e.id) == "0" && Join(", ", SkillsOrEmpty(e.skills)) == "";
    FreshText();
  }

  lemma FreshText()
    ensures "ID: " + "0" + ", Name: " + "" + ", Dept: " + "" + ", Skills: [" + "" + "]"
            == "ID: 0, Name: , Dept: , Skills: []"
  {
  }

  /** Age, salary and hire date do not appear in the text. */
  lemma ToStringIgnoresUnprintedFields(e: EmployeeModel, age: Int32, salary: Decimal, hireDate: Instant)
    ensures ToString(e.(age := age, salary := salary, hireDate := hireDate)) == ToString(e)
  {
  }

  /** A null skills list prints exactly as an empty one. */
  lemma ToStringNullSkillsAsEmpty(e: EmployeeModel)
    ensures ToString(e.(skills := None)) == ToString(e.(skills := Some([])))
  {
  }

  /** A record without skills, null or empty, ends its text with "Skills: []". */
  lemma ToStringNoSkills(e: EmployeeModel)
    requires e.skills == None || e.skills == Some([])
    ensures var s := ToString(e); |s| >= 12 && s[|s| - 12..] == ", Skills: []"
  {
    var s := ToString(e);
    var front := "ID: " + IntToString(e.id) + ", Name: " + e.name + ", Dept: " + e.department;
    assert s == front + ", Skills: []";
  }

  /**
   * Skills print in list order: appending a skill to a non-empty list inserts ", " and the
   * skill just before the closing bracket, and leaves the rest of the text as it was.
   */
  lemma ToStringAppendSkill(e: EmployeeModel, xs: seq<string>, y: string)
    requires |xs| > 0
    ensures var before := ToString(e.(skills := Some(xs)));
            ToString(e.(skills := Some(xs + [y]))) == before[..|before| - 1] + ", " + y + "]"
  {
    var front := "ID: " + IntToString(e.id) + ", Name: " + e.name + ", Dept: " + e.department + ", Skills: [";
    JoinSplit(", ", xs + [y], |xs|);
    assert (xs + [y])[..|xs|] == xs;
    assert (xs + [y])[|xs|..] == [y];
    assert ToString(e.(skills := Some(xs))) == front + Join(", ", xs) + "]";
    assert ToString(e.(skills := Some(xs + [y]))) == front + (Join(", ", xs) + ", " + y) + "]";
    InsertBeforeLast(front, Join(", ", xs), ", " + y, "]");
  }

  /** Growing the middle of front + m + last only changes the text just before last. */
  lemma InsertBeforeLast(front: string, m: string, extra: string, last: string)
    requires |last| == 1
    ensures var before := front + m + last;
            front + (m + extra) + last == before[..|before| - 1] + extra + last
  {
    var before := front + m + last;
    assert before[..|before| - 1] == front + m;
  }

  /** An integer's text followed by a comma determines the integer. */
  lemma IntTextBeforeComma(x: Int32, y: Int32, ra: string, rb: string)
    requires |ra| > 0 && |rb| > 0 && ra[0] == ',' && rb[0] == ','
    requires IntToString(x) + ra == IntToString(y) + rb
    ensures x == y
  {
    var tx, ty := IntToString(x), IntToString(y);
    var s := tx + ra;
    assert ',' !in tx && ',' !in ty;
    IndexOfCharAfter(tx, ra, ',');
    IndexOfCharAfter(ty, rb, ',');
    assert tx == s[..|tx|] == ty;
    ParseIntToString(x);
    ParseIntToString(y);
  }

  /** What follows the id in the text of e. */
  function AfterId(e: EmployeeModel): (r: string)
    ensures |r| > 0 && r[0] == ','
  {
    ", Name: " + e.name + ", Dept: " + e.department + ", Skills: [" + Join(", ", SkillsOrEmpty(e.skills)) + "]"
  }

  lemma ToStringAfterLabel(e: EmployeeModel)
    ensures ToString(e)[4..] == IntToString(e.id) + AfterId(e)
  {
    assert ToString(e) == "ID: " + (IntToString(e.id) + AfterId(e));
  }

  /** The id can be read back from the text: records that print the same have the same id. */
  lemma ToStringDeterminesId(a: EmployeeModel, b: EmployeeModel)
    requires ToString(a) == ToString(b)
    ensures a.id == b.id
  {
    ToStringAfterLabel(a);
    ToStringAfterLabel(b);
    IntTextBeforeComma(a.id, b.id, AfterId(a), AfterId(b));
  }
}
