/** `RoleUtils`: a user counts as a teacher of a course when one of the roles they hold in the
    course context is an allowed teacher role. */
module RoleUtils {

  /** Teacher, non-editing teacher, manager and the two site-specific teacher roles. */
  const ALLOWED_TEACHER_ROLES: seq<int> := [3, 4, 15, 9, 12]

  function GetAllowedTeacherRoles(): (r: seq<int>)
    ensures |r| == 5
    ensures forall id :: id in r <==> id == 3 || id == 4 || id == 9 || id == 12 || id == 15
  {
    ALLOWED_TEACHER_ROLES
  }

  /** The loop over the user's role ids, returning as soon as one is allowed. */
  function IsTeacher(roleIds: seq<int>): (b: bool)
    ensures b <==> exists i :: 0 <= i < |roleIds| && roleIds[i] in GetAllowedTeacherRoles()
  {
    if |roleIds| == 0 then false
    else if roleIds[0] in GetAllowedTeacherRoles() then true
    else IsTeacher(roleIds[1..])
  }

  /** Only the set of role ids matters: neither their order nor repetitions change the answer. */
  lemma IsTeacherDependsOnSetOnly(r1: seq<int>, r2: seq<int>)
    requires forall x :: x in r1 <==> x in r2
    ensures IsTeacher(r1) == IsTeacher(r2)
  {
    if IsTeacher(r1) {
      var i :| 0 <= i < |r1| && r1[i] in GetAllowedTeacherRoles();
      assert r1[i] in r2;
      var j :| 0 <= j < |r2| && r2[j] == r1[i];
    }
    if IsTeacher(r2) {
      var i :| 0 <= i < |r2| && r2[i] in GetAllowedTeacherRoles();
      assert r2[i] in r1;
      var j :| 0 <= j < |r1| && r1[j] == r2[i];
    }
  }
}
