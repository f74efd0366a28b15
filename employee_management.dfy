// The employee form and list of the employee management screen
// (src/components/EmployeeManagement.tsx): the skill list kept free of
// duplicates, the weekday availability flags and the search filter.

module EmployeeDirectory {

  import opened Wrappers
  import opened Text
  import opened Seqs

  datatype Day = Monday | Tuesday | Wednesday | Thursday | Friday | Saturday | Sunday

  datatype Availability = Availability(
    monday: bool, tuesday: bool, wednesday: bool, thursday: bool,
    friday: bool, saturday: bool, sunday: bool)

  /** An employee record; a missing skill list is the empty list. */
  datatype Employee = Employee(
    name: string, employeeId: string, email: string, department: Option<string>,
    skills: seq<string>, availability: Availability)

  /** The form state the skill buttons work on: the edited employee and the skill input box. */
  datatype SkillForm = SkillForm(employee: Employee, skillInput: string)

  /** addSkill: the trimmed input is appended, and the box cleared, when it is non-empty and
      not listed yet; otherwise nothing changes. */
  function AddSkill(f: SkillForm): SkillForm {
    var t := Trim(f.skillInput);
    if t != "" && t !in f.employee.skills then
      SkillForm(f.employee.(skills := f.employee.skills + [t]), "")
    else f
  }

  /** A blank or already listed skill leaves the form as it was; any other is appended once, so a
      duplicate-free list stays duplicate-free, and nothing but the skills and the box changes. */
  lemma AddSkillFacts(f: SkillForm)
    ensures var t := Trim(f.skillInput);
      var r := AddSkill(f);
      (r == f <==> t == "" || t in f.employee.skills)
      && (r != f ==> r.employee.skills == f.employee.skills + [t] && r.skillInput == "")
      && r.employee == f.employee.(skills := r.employee.skills)
      && (NoDup(f.employee.skills) ==> NoDup(r.employee.skills))
  {
    var t := Trim(f.skillInput);
    var r := AddSkill(f);
    if t != "" && t !in f.employee.skills {
      assert r.employee.skills != f.employee.skills by {
        assert |r.employee.skills| == |f.employee.skills| + 1;
      }
      if NoDup(f.employee.skills) {
        var s := r.employee.skills;
        forall i, j | 0 <= i < j < |s|
          ensures s[i] != s[j]
        {
          if j == |s| - 1 {
            assert s[i] in f.employee.skills;
          }
        }
      }
    }
  }

  /** removeSkill: every occurrence of the skill goes, the others stay in order. */
  function RemoveSkill(e: Employee, skill: string): (r: Employee)
    ensures skill !in r.skills
    ensures forall x :: x != skill ==> (x in r.skills <==> x in e.skills)
    ensures IsSubsequence(r.skills, e.skills)
    ensures r == e.(skills := r.skills)
  {
    e.(skills := Filter(e.skills, (x: string) => x != skill))
  }

  /** Removing a skill just added gives the list back. */
  lemma RemoveUndoesAdd(f: SkillForm)
    requires AddSkill(f) != f
    ensures RemoveSkill(AddSkill(f).employee, Trim(f.skillInput)).skills == f.employee.skills
  {
    var t := Trim(f.skillInput);
    var keep := (x: string) => x != t;
    var skills := f.employee.skills;
    assert Filter(skills + [t], keep) == Filter(skills, keep) by {
      FilterDropLast(skills, t, keep);
    }
    FilterAll(skills, keep);
  }

  function Available(a: Availability, d: Day): bool {
    match d
    case Monday => a.monday
    case Tuesday => a.tuesday
    case Wednesday => a.wednesday
    case Thursday => a.thursday
    case Friday => a.friday
    case Saturday => a.saturday
    case Sunday => a.sunday
  }

  /** updateAvailability: set one weekday's flag. */
  function UpdateAvailability(e: Employee, d: Day, available: bool): Employee {
    var a := e.availability;
    e.(availability := match d
      case Monday => a.(monday := available)
      case Tuesday => a.(tuesday := available)
      case Wednesday => a.(wednesday := available)
      case Thursday => a.(thursday := available)
      case Friday => a.(friday := available)
      case Saturday => a.(saturday := available)
      case Sunday => a.(sunday := available))
  }

  /** Only the named day's flag changes, to the given value; the rest of the record stays. */
  lemma UpdateAvailabilityFacts(e: Employee, d: Day, available: bool)
    ensures var r := UpdateAvailability(e, d, available);
      Available(r.availability, d) == available
      && (forall o :: o != d ==> Available(r.availability, o) == Available(e.availability, o))
      && r == e.(availability := r.availability)
  {
  }

  /** The search: the lower-cased term in the lower-cased name, id, email or department. */
  predicate MatchesSearch(e: Employee, term: string) {
    var t := ToLower(term);
    Contains(ToLower(e.name), t) || Contains(ToLower(e.employeeId), t) || Contains(ToLower(e.email), t)
    || (e.department.Some? && Contains(ToLower(e.department.value), t))
  }

  /** filteredEmployees: the matching employees, in list order. */
  function FilteredEmployees(employees: seq<Employee>, term: string): seq<Employee> {
    Filter(employees, (e: Employee) => MatchesSearch(e, term))
  }

  /** An employee is listed exactly when it matches, the list keeps the order, and the empty
      search lists everyone. */
  lemma FilteredEmployeesFacts(employees: seq<Employee>, term: string)
    ensures forall e :: e in FilteredEmployees(employees, term) <==> e in employees && MatchesSearch(e, term)
    ensures IsSubsequence(FilteredEmployees(employees, term), employees)
    ensures term == "" ==> FilteredEmployees(employees, term) == employees
  {
    if term == "" {
      forall e | e in employees
        ensures MatchesSearch(e, term)
      {
        ContainsEmpty(ToLower(e.name));
      }
      FilterAll(employees, (e: Employee) => MatchesSearch(e, term));
    }
  }
}
