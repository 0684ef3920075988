/** Callers of the registry. The first group replays the scenarios of
 *  academics.test.js on a fresh registry; the second states, for every
 *  registry and every input, how one operation's outcome shows up in the
 *  next one. */
module Scenarios {
  import opened Records
  import opened Academics
  import opened IdGeneration

  /** "view self details" and "view other academics' details"; the second
   *  id is drawn with the reject-and-redraw generator. */
  method AcademicDetailsScenario()
  {
    var registry := new Registry();
    var r := registry.AcademicCreate("Kevin", "Golf", 17);
    assert r == Ok(17);
    assert AcademicIds(registry.academics) == [17];
    var draws := [17, 42];
    var drawn := DrawFreshId(AcademicIds(registry.academics), draws);
    assert draws[1] !in [17];
    assert drawn == Some(42);
    r := registry.AcademicCreate("Wiselly", "Working", 42);
    assert r == Ok(42);
    assert AcademicIds(registry.academics) == [17, 42];
    assert registry.AcademicDetails(17, 17) == Ok(Academic(17, "Kevin", "Golf"));
    assert registry.AcademicDetails(17, 42) == Ok(Academic(42, "Wiselly", "Working"));
    assert registry.AcademicDetails(42, 17) == Ok(Academic(17, "Kevin", "Golf"));
    assert registry.AcademicDetails(18, 17).Err?;
    assert registry.AcademicDetails(17, 18).Err?;
    r := registry.AcademicCreate("", "Golf", 5);
    assert r == Err(Validation);
  }

  /** "view details test 1" and the two not-enrolled cases. */
  method CourseDetailsScenario()
  {
    var registry := new Registry();
    var kevin := registry.AcademicCreate("Kevin", "Golf", 1);
    assert AcademicIds(registry.academics) == [1];
    var wiselly := registry.AcademicCreate("Wiselly", "Working", 2);
    assert AcademicIds(registry.academics) == [1, 2];
    var comp := registry.CourseCreate(1, "COMP1531", "yes", 7);
    assert comp == Ok(7);
    assert CourseIds(registry.courses) == [7];
    var ma := registry.CourseCreate(2, "2211MA", "wise", 8);
    assert ma == Ok(8);
    assert CourseIds(registry.courses) == [7, 8];
    var kevinSnapshot := Academic(1, "Kevin", "Golf");
    assert AcademicIds([kevinSnapshot]) == [1];
    var details := registry.CourseDetails(1, 7);
    assert details == Ok(Course(7, "COMP1531", "yes", [kevinSnapshot], [kevinSnapshot]));
    details := registry.CourseDetails(2, 7);
    assert details == Err(NotEnrolled);
    assert AcademicIds([Academic(2, "Wiselly", "Working")]) == [2];
    details := registry.CourseDetails(1, 8);
    assert details == Err(NotEnrolled);
    details := registry.CourseDetails(1, 9);
    assert details == Err(NotFound);
    comp := registry.CourseCreate(3, "COMP1531", "yes", 9);
    assert comp == Err(NotFound);
    comp := registry.CourseCreate(1, "COMP1531", "", 9);
    assert comp == Err(Validation);
  }

  /** The courseEnrol cases: enrolling once succeeds, a second time fails,
   *  the creator cannot enrol in their own course, unknown ids fail. */
  method CourseEnrolScenario()
  {
    var registry := new Registry();
    var kevin := registry.AcademicCreate("Kevin", "Golf", 1);
    assert AcademicIds(registry.academics) == [1];
    var magnus := registry.AcademicCreate("Magnus", "chess", 2);
    assert AcademicIds(registry.academics) == [1, 2];
    var course := registry.CourseCreate(1, "COMP1531", "yes", 5);
    assert CourseIds(registry.courses) == [5];
    assert AcademicIds([Academic(1, "Kevin", "Golf")]) == [1];
    var r := registry.CourseEnrol(2, 5, false);
    assert r == Ok(());
    assert CourseIds(registry.courses) == [5];
    assert AcademicIds(registry.courses[0].allMembers) == [1, 2];
    r := registry.CourseEnrol(2, 5, true);
    assert r == Err(AlreadyEnrolled);
    r := registry.CourseEnrol(1, 5, true);
    assert r == Err(AlreadyEnrolled);
    r := registry.CourseEnrol(3, 5, false);
    assert r == Err(NotFound);
    r := registry.CourseEnrol(1, 6, false);
    assert r == Err(NotFound);
  }

  /** "valid test" of academicsList and coursesList, and the lists after
   *  clear(). */
  method ListScenario()
  {
    var registry := new Registry();
    var kevin := registry.AcademicCreate("Kevin", "Golf", 1);
    assert AcademicIds(registry.academics) == [1];
    var magnus := registry.AcademicCreate("Magnus", "chess", 2);
    assert AcademicIds(registry.academics) == [1, 2];
    var c1 := registry.CourseCreate(1, "COMP1531", "yes", 10);
    assert CourseIds(registry.courses) == [10];
    var c2 := registry.CourseCreate(2, "2211MA", "wise", 20);
    var list := registry.CoursesList(2);
    assert list.value == [CourseSummary(10, "COMP1531"), CourseSummary(20, "2211MA")];
    var people := registry.AcademicsList(1);
    assert people.value == [AcademicSummary(1, "Kevin"), AcademicSummary(2, "Magnus")];
    var cleared := registry.Clear();
    list := registry.CoursesList(2);
    assert list == Err(NotFound);
  }

  /** A created academic is visible, with exactly the given name and hobby,
   *  to every registered academic, the new one included. */
  method CreateThenView(registry: Registry, requester: int, name: string, hobby: string, newId: int)
    returns (created: Result<int>, viewed: Result<Academic>)
    requires registry.Valid()
    requires 0 <= newId <= MaxAcademicId && newId !in AcademicIds(registry.academics)
    requires requester in AcademicIds(registry.academics) || requester == newId
    modifies registry
    ensures created.Ok? ==> viewed == Ok(Academic(newId, name, hobby))
  {
    created := registry.AcademicCreate(name, hobby, newId);
    if created.Ok? {
      FindAcademicAfterAppend(old(registry.academics), Academic(newId, name, hobby), requester);
      FindAcademicAfterAppend(old(registry.academics), Academic(newId, name, hobby), newId);
    }
    viewed := registry.AcademicDetails(requester, newId);
  }

  /** The creator of a course sees it with themself as the only staff
   *  member and the only member. */
  method CreateThenCourseDetails(registry: Registry, academicId: int, name: string, description: string, newId: int)
    returns (created: Result<int>, viewed: Result<Course>)
    requires registry.Valid()
    requires 0 <= newId <= MaxCourseId && newId !in CourseIds(registry.courses)
    modifies registry
    ensures created.Ok? ==> academicId in AcademicIds(registry.academics)
    ensures created.Ok? ==>
        var creator := FindAcademic(registry.academics, academicId).value;
        viewed == Ok(Course(newId, name, description, [creator], [creator]))
  {
    created := registry.CourseCreate(academicId, name, description, newId);
    viewed := registry.CourseDetails(academicId, newId);
    if created.Ok? {
      var creator := FindAcademic(registry.academics, academicId).value;
      CourseIndexAfterAppend(old(registry.courses), Course(newId, name, description, [creator], [creator]), newId);
      assert AcademicIds([creator]) == [academicId];
    }
  }

  /** After a successful enrolment the academic is a member of the course,
   *  and a staff member exactly when enrolled as staff. */
  method EnrolThenCourseDetails(registry: Registry, academicId: int, courseId: int, isStaff: bool)
    returns (enrolled: Result<()>, viewed: Result<Course>)
    requires registry.Valid()
    modifies registry
    ensures enrolled.Ok? ==>
        && viewed.Ok?
        && academicId in AcademicIds(viewed.value.allMembers)
        && (academicId in AcademicIds(viewed.value.staffMembers) <==> isStaff)
  {
    ghost var before := registry.courses;
    enrolled := registry.CourseEnrol(academicId, courseId, isStaff);
    if enrolled.Ok? {
      var k := CourseIndex(before, courseId).value;
      var academic := FindAcademic(registry.academics, academicId).value;
      EnrolMembership(before[k], registry.academics, academic, isStaff);
      assert CourseIds(registry.courses) == CourseIds(before);
    }
    viewed := registry.CourseDetails(academicId, courseId);
  }

  /** Enrolling the same academic in the same course twice always fails the
   *  second time, whatever the staff flags. */
  method EnrolTwice(registry: Registry, academicId: int, courseId: int, firstAsStaff: bool, secondAsStaff: bool)
    returns (first: Result<()>, second: Result<()>)
    requires registry.Valid()
    modifies registry
    ensures first.Ok? ==> second == Err(AlreadyEnrolled)
  {
    ghost var before := registry.courses;
    first := registry.CourseEnrol(academicId, courseId, firstAsStaff);
    if first.Ok? {
      var k := CourseIndex(before, courseId).value;
      var academic := FindAcademic(registry.academics, academicId).value;
      EnrolMembership(before[k], registry.academics, academic, firstAsStaff);
      assert CourseIds(registry.courses) == CourseIds(before);
    }
    second := registry.CourseEnrol(academicId, courseId, secondAsStaff);
  }

  /** After clear(), every operation that names an academic fails. */
  method ClearThenRequest(registry: Registry, academicId: int, courseId: int, isStaff: bool)
    returns (details: Result<Academic>, course: Result<Course>, academics: Result<seq<AcademicSummary>>,
             courses: Result<seq<CourseSummary>>, enrolled: Result<()>)
    modifies registry
    ensures details == Err(NotFound) && course == Err(NotFound) && academics == Err(NotFound)
    ensures courses == Err(NotFound) && enrolled == Err(NotFound)
  {
    var cleared := registry.Clear();
    details := registry.AcademicDetails(academicId, academicId);
    course := registry.CourseDetails(academicId, courseId);
    academics := registry.AcademicsList(academicId);
    courses := registry.CoursesList(academicId);
    enrolled := registry.CourseEnrol(academicId, courseId, isStaff);
  }

  /** The two list operations return the same lists to every registered
   *  requester. */
  method ListsIgnoreRequester(registry: Registry, requester1: int, requester2: int)
    returns (academics1: Result<seq<AcademicSummary>>, academics2: Result<seq<AcademicSummary>>,
             courses1: Result<seq<CourseSummary>>, courses2: Result<seq<CourseSummary>>)
    requires requester1 in AcademicIds(registry.academics)
    requires requester2 in AcademicIds(registry.academics)
    ensures academics1.Ok? && academics1 == academics2
    ensures courses1.Ok? && courses1 == courses2
  {
    academics1 := registry.AcademicsList(requester1);
    academics2 := registry.AcademicsList(requester2);
    courses1 := registry.CoursesList(requester1);
    courses2 := registry.CoursesList(requester2);
    assert academics1.value == academics2.value;
    assert courses1.value == courses2.value;
  }
}
