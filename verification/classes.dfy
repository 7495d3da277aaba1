/** Class creation (backend/src/modules/timetable/timetable.service.js):
    the duplicate-name check comes before the subjects check, and a class
    is created only when both pass. The class schema
    (backend/src/modules/timetable/class.model.js) trims the class name and
    the section and upper-cases and trims the department; the name setter
    also applies to the `findOne` filter, so the duplicate check compares
    trimmed names. The schema's validators (required fields, semester
    range) are not part of this model. */
module Classes {
  import opened Results
  import opened Text

  type SubjectId = nat

  datatype ClassRecord = ClassRecord(
    className: string,
    department: string,
    semester: int,
    section: string,
    subjects: seq<SubjectId>)

  /** The request body; `subjects` may be left undefined. */
  datatype NewClass = NewClass(
    className: string,
    department: string,
    semester: int,
    section: string,
    subjects: Option<seq<SubjectId>>)

  datatype ClassError =
    | ClassExists  // 409 "Class already exists"
    | NoSubjects   // 400 "At least one subject is required"

  datatype ClassReply = ClassReply(classes: seq<ClassRecord>, result: Result<ClassRecord, ClassError>)

  predicate NameTaken(classes: seq<ClassRecord>, name: string) {
    exists k | 0 <= k < |classes| :: classes[k].className == name
  }

  /** `ClassModel.findOne({ className })`: the first class with the name. */
  function FindClass(classes: seq<ClassRecord>, name: string): (r: Option<nat>)
    ensures r.Some? ==> r.value < |classes| && classes[r.value].className == name
    ensures r.None? <==> !NameTaken(classes, name)
  {
    if |classes| == 0 then None
    else if classes[0].className == name then Some(0)
    else
      match FindClass(classes[1..], name)
      case None => None
      case Some(k) => Some(k + 1)
  }

  /** The class schema's setters on a class name or section (`trim`). */
  function SetName(s: string): string {
    Trim(s)
  }

  /** The class schema's setters on a department (`uppercase`, then `trim`). */
  function SetDepartment(s: string): string {
    Trim(ToUpperCase(s))
  }

  /** A class as the schema stores it: no white space around the name, the
      department or the section, and no lower-case letter in the department. */
  predicate Stored(c: ClassRecord) {
    Trimmed(c.className) && Trimmed(c.department) && NoLowerAscii(c.department) && Trimmed(c.section)
  }

  /** A stored class is a fixed point of the setters: saving it again
      changes none of its fields. */
  lemma StoredIsSetterFixpoint(c: ClassRecord)
    requires Stored(c)
    ensures SetName(c.className) == c.className
    ensures SetDepartment(c.department) == c.department
    ensures SetName(c.section) == c.section
  {
    assert SetName(c.className) == c.className by {
      TrimOfTrimmed(c.className);
    }
    assert SetName(c.section) == c.section by {
      TrimOfTrimmed(c.section);
    }
    assert SetDepartment(c.department) == c.department by {
      ToUpperCaseOfUpper(c.department);
      TrimOfTrimmed(c.department);
    }
  }

  /** `createClassService`: the name is looked up after the schema's trim
      setter, and the class is stored with every setter applied. */
  function CreateClass(classes: seq<ClassRecord>, p: NewClass): (r: ClassReply)
    ensures r.result == Err(ClassExists) <==> NameTaken(classes, Trim(p.className))
    ensures r.result == Err(NoSubjects) <==>
      !NameTaken(classes, Trim(p.className)) && (p.subjects.None? || |p.subjects.value| == 0)
    ensures r.result.Err? ==> r.classes == classes
    ensures r.result.Ok? ==>
      var c := r.result.value;
      && r.classes == classes + [c]
      && c.className == Trim(p.className)
      && c.department == Trim(ToUpperCase(p.department))
      && c.semester == p.semester && c.section == Trim(p.section)
      && Some(c.subjects) == p.subjects && |c.subjects| > 0
      && Stored(c)
  {
    var name := SetName(p.className);
    if FindClass(classes, name).Some? then ClassReply(classes, Err(ClassExists))
    else if p.subjects.None? || |p.subjects.value| == 0 then ClassReply(classes, Err(NoSubjects))
    else
      var c := ClassRecord(name, SetDepartment(p.department), p.semester, SetName(p.section), p.subjects.value);
      TrimKeepsNoLower(ToUpperCase(p.department));
      ClassReply(classes + [c], Ok(c))
  }

  /** A duplicate name is reported even when the subjects are also missing. */
  lemma DuplicateCheckedFirst(classes: seq<ClassRecord>, p: NewClass)
    requires NameTaken(classes, Trim(p.className)) && p.subjects.None?
    ensures CreateClass(classes, p).result == Err(ClassExists)
  {
  }

  /** White space before or after the name of a stored class does not get
      past the duplicate check: the filter is trimmed like the stored name. */
  lemma WhitespaceAroundNameIsDuplicate(classes: seq<ClassRecord>, k: nat, w: char, p: NewClass)
    requires k < |classes| && Stored(classes[k]) && IsJsWhitespace(w)
    requires p.className == [w] + classes[k].className || p.className == classes[k].className + [w]
    ensures CreateClass(classes, p).result == Err(ClassExists)
  {
    assert Trim(p.className) == classes[k].className by {
      TrimOfPadded(classes[k].className, w, p.className);
    }
  }

  predicate AllStored(classes: seq<ClassRecord>) {
    forall k | 0 <= k < |classes| :: Stored(classes[k])
  }

  /** Appending a stored class keeps every class stored. */
  lemma AppendKeepsStored(classes: seq<ClassRecord>, c: ClassRecord)
    requires AllStored(classes) && Stored(c)
    ensures AllStored(classes + [c])
  {
    forall k | 0 <= k < |classes| + 1
      ensures Stored((classes + [c])[k])
    {
      if k < |classes| {
        assert (classes + [c])[k] == classes[k];
      } else {
        assert (classes + [c])[k] == c;
      }
    }
  }

  /** Creation keeps every class in its stored form. */
  lemma CreateKeepsStored(classes: seq<ClassRecord>, p: NewClass)
    requires AllStored(classes)
    ensures AllStored(CreateClass(classes, p).classes)
  {
    var r := CreateClass(classes, p);
    if r.result.Ok? {
      AppendKeepsStored(classes, r.result.value);
    }
  }

  predicate UniqueNames(classes: seq<ClassRecord>) {
    forall i, j | 0 <= i < j < |classes| :: classes[i].className != classes[j].className
  }

  /** Creation keeps class names unique. */
  lemma CreateKeepsNamesUnique(classes: seq<ClassRecord>, p: NewClass)
    requires UniqueNames(classes)
    ensures UniqueNames(CreateClass(classes, p).classes)
  {
    var r := CreateClass(classes, p);
    if r.result.Ok? {
      var cs := r.classes;
      forall i, j | 0 <= i < j < |cs|
        ensures cs[i].className != cs[j].className
      {
        if j == |classes| {
          assert cs[i] == classes[i];
        }
      }
    }
  }
}
