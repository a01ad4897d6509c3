/** Reordering the lessons of a module, and the course page that lists them. */
module LessonOrder {
  import opened Ordering
  import opened Wrappers

  datatype Module = Module(tenant: Uuid, course: Uuid, orderIndex: int, isHidden: bool)

  datatype Lesson = Lesson(tenant: Uuid, inModule: Uuid, orderIndex: int, isHidden: bool, title: string)

  datatype ReorderError = ModuleNotFound

  type Lessons = map<Uuid, Lesson>

  /******* The listing *******/

  predicate Belongs(lessons: Lessons, tenant: Uuid, m: Uuid, id: Uuid) {
    id in lessons && lessons[id].tenant == tenant && lessons[id].inModule == m
  }

  predicate Visible(lessons: Lessons, tenant: Uuid, m: Uuid, id: Uuid) {
    Belongs(lessons, tenant, m, id) && !lessons[id].isHidden
  }

  /** What `SELECT ... ORDER BY order_index` may return for a module: its visible lessons, each once, by
      index; the order of lessons with equal indexes is the database's choice. */
  ghost predicate IsListing(lessons: Lessons, tenant: Uuid, m: Uuid, out: seq<Uuid>) {
    && NoDuplicates(out)
    && (forall i :: 0 <= i < |out| ==> Visible(lessons, tenant, m, out[i]))
    && (forall id :: Visible(lessons, tenant, m, id) ==> id in out)
    && (forall i, j :: 0 <= i < j < |out| ==> lessons[out[i]].orderIndex <= lessons[out[j]].orderIndex)
  }

  /** The same for the visible modules of a course. */
  ghost predicate IsModuleListing(modules: map<Uuid, Module>, tenant: Uuid, course: Uuid, out: seq<Uuid>) {
    && NoDuplicates(out)
    && (forall i :: 0 <= i < |out| ==> out[i] in modules)
    && (forall m :: m in out <==>
          m in modules && modules[m].tenant == tenant && modules[m].course == course && !modules[m].isHidden)
    && (forall i, j :: 0 <= i < j < |out| ==> modules[out[i]].orderIndex <= modules[out[j]].orderIndex)
  }

  function ModulesOf(detail: seq<(Uuid, seq<Uuid>)>): seq<Uuid> {
    seq(|detail|, i requires 0 <= i < |detail| => detail[i].0)
  }

  /** What `get_course_detail` may return: the visible modules, each with a listing. */
  ghost predicate IsCourseDetail(modules: map<Uuid, Module>, lessons: Lessons, tenant: Uuid, course: Uuid,
                                 detail: seq<(Uuid, seq<Uuid>)>) {
    && IsModuleListing(modules, tenant, course, ModulesOf(detail))
    && (forall i :: 0 <= i < |detail| ==> IsListing(lessons, tenant, detail[i].0, detail[i].1))
  }

  /** Column by column: the modules of the tenant and course that are not hidden, by index, and under each its lessons
      that are not hidden, by index. */
  lemma DetailInColumns(modules: map<Uuid, Module>, lessons: Lessons, tenant: Uuid, course: Uuid,
                        detail: seq<(Uuid, seq<Uuid>)>)
    requires IsCourseDetail(modules, lessons, tenant, course, detail)
    ensures forall row <- detail :: row.0 in modules && forall id <- row.1 :: id in lessons
    ensures forall m | m in modules ::
              (exists row <- detail :: row.0 == m) <==>
              modules[m].tenant == tenant && modules[m].course == course && !modules[m].isHidden
    ensures forall i, j :: 0 <= i < j < |detail| ==>
              detail[i].0 != detail[j].0 && modules[detail[i].0].orderIndex <= modules[detail[j].0].orderIndex
    ensures forall row <- detail, id | id in lessons ::
              id in row.1 <==>
              lessons[id].tenant == tenant && lessons[id].inModule == row.0 && !lessons[id].isHidden
    ensures forall row <- detail :: forall i, j :: 0 <= i < j < |row.1| ==>
              row.1[i] != row.1[j] && lessons[row.1[i]].orderIndex <= lessons[row.1[j]].orderIndex
  {
    var ms := ModulesOf(detail);
    forall row <- detail ensures row.0 in ms && IsListing(lessons, tenant, row.0, row.1) {
      var i :| 0 <= i < |detail| && detail[i] == row;
      assert ms[i] == row.0;
    }
    assert forall i :: 0 <= i < |detail| ==> ms[i] == detail[i].0;
    forall m <- ms ensures exists row <- detail :: row.0 == m {
      var i :| 0 <= i < |ms| && ms[i] == m;
      assert detail[i] in detail;
    }
    forall row <- detail ensures forall id <- row.1 :: id in lessons {
      forall id <- row.1 ensures id in lessons { assert Visible(lessons, tenant, row.0, id); }
    }
    forall row <- detail, id | id in lessons
      ensures id in row.1 <==> lessons[id].tenant == tenant && lessons[id].inModule == row.0 && !lessons[id].isHidden
    {
      assert id in row.1 <==> Visible(lessons, tenant, row.0, id);
    }
  }

  /******* Reordering *******/

  /** The position of the last occurrence of `id`, or -1. */
  function LastIndex(ids: seq<Uuid>, id: Uuid): (k: int)
    ensures -1 <= k < |ids|
    ensures if k == -1 then id !in ids else ids[k] == id && forall j :: k < j < |ids| ==> ids[j] != id
  {
    if ids == [] then -1
    else if ids[|ids| - 1] == id then |ids| - 1
    else LastIndex(ids[..|ids| - 1], id)
  }

  /** Every listed lesson of the module gets the index of its last occurrence; nothing else changes. */
  function Reordered(lessons: Lessons, tenant: Uuid, m: Uuid, ids: seq<Uuid>): Lessons {
    map id | id in lessons ::
      if Belongs(lessons, tenant, m, id) && id in ids
      then lessons[id].(orderIndex := LastIndex(ids, id)) else lessons[id]
  }

  class Admin {
    var modules: map<Uuid, Module>
    var lessons: Lessons

    constructor (modules: map<Uuid, Module>, lessons: Lessons)
      ensures this.modules == modules && this.lessons == lessons
    {
      this.modules := modules;
      this.lessons := lessons;
    }

    /** One UPDATE per requested id, in the order of the request. */
    method ReorderLessons(tenant: Uuid, m: Uuid, ids: seq<Uuid>) returns (r: Result<nat, ReorderError>)
      modifies this`lessons
      ensures m in modules && modules[m].tenant == tenant ==>
                r == Success(|ids|) && lessons == Reordered(old(lessons), tenant, m, ids)
      ensures lessons.Keys == old(lessons).Keys
      ensures forall id | id in lessons ::
                var lesson := old(lessons)[id];
                lessons[id] == if r.Success? && lesson.tenant == tenant && lesson.inModule == m && id in ids
                               then lesson.(orderIndex := LastIndex(ids, id)) else lesson
      ensures !(m in modules && modules[m].tenant == tenant) ==>
                r == Failure(ModuleNotFound) && lessons == old(lessons)
    {
      if m !in modules || modules[m].tenant != tenant { return Failure(ModuleNotFound); }
      ghost var before := lessons;
      for idx := 0 to |ids|
        invariant lessons == Reordered(before, tenant, m, ids[..idx])
      {
        var id := ids[idx];
        OneMoreUpdate(before, tenant, m, ids[..idx], id);
        assert ids[..idx] + [id] == ids[..idx + 1];
        if Belongs(lessons, tenant, m, id) {
          lessons := lessons[id := lessons[id].(orderIndex := idx)];
        }
      }
      assert ids[..|ids|] == ids;
      return Success(|ids|);
    }
  }

  /******* The course page *******/

  datatype Course = Course(tenant: Uuid, slug: string, isFree: bool)

  datatype CourseError = CourseNotFound | NotEnrolled

  class CoursePages {
    var courses: map<Uuid, Course>
    var modules: map<Uuid, Module>
    var lessons: Lessons

    /** Slugs are unique within a tenant. */
    ghost predicate Valid()
      reads this
    {
      forall c, d | c in courses && d in courses && c != d ::
        !(courses[c].tenant == courses[d].tenant && courses[c].slug == courses[d].slug)
    }

    constructor (courses: map<Uuid, Course>, modules: map<Uuid, Module>, lessons: Lessons)
      ensures this.courses == courses && this.modules == modules && this.lessons == lessons
    {
      this.courses, this.modules, this.lessons := courses, modules, lessons;
    }

    /** The course page, for a reader who is enrolled in the courses of `enrolled`. */
    method GetCourseDetail(tenant: Uuid, enrolled: set<Uuid>, slug: string)
      returns (r: Result<(Uuid, seq<(Uuid, seq<Uuid>)>), CourseError>)
      requires Valid()
      ensures r == Failure(CourseNotFound) <==>
              forall c :: c in courses ==> !(courses[c].tenant == tenant && courses[c].slug == slug)
      ensures r == Failure(NotEnrolled) <==>
                exists c :: c in courses && courses[c].tenant == tenant && courses[c].slug == slug
                            && c !in enrolled && !courses[c].isFree
      ensures r.Success? ==>
                && r.value.0 in courses && courses[r.value.0].tenant == tenant && courses[r.value.0].slug == slug
                && (r.value.0 in enrolled || courses[r.value.0].isFree)
                && IsCourseDetail(modules, lessons, tenant, r.value.0, r.value.1)
    {
      var found := set c | c in courses && courses[c].tenant == tenant && courses[c].slug == slug;
      assert forall c :: c in found <==> c in courses && courses[c].tenant == tenant && courses[c].slug == slug;
      if found == {} { return Failure(CourseNotFound); }
      var course :| course in found;
      if course !in enrolled && !courses[course].isFree { return Failure(NotEnrolled); }
      var detail := ListModules(tenant, course);
      return Success((course, detail));
    }

    method ListModules(tenant: Uuid, course: Uuid) returns (detail: seq<(Uuid, seq<Uuid>)>)
      ensures IsCourseDetail(modules, lessons, tenant, course, detail)
    {
      var visible := set m | m in modules && modules[m].tenant == tenant
                               && modules[m].course == course && !modules[m].isHidden;
      var ms := modules;
      var rows := Sorted(visible, (m: Uuid) => if m in ms then ms[m].orderIndex else 0);
      assert forall i :: 0 <= i < |rows| ==> rows[i] in rows;
      detail := [];
      for i := 0 to |rows|
        invariant ModulesOf(detail) == rows[..i]
        invariant forall k :: 0 <= k < i ==> IsListing(lessons, tenant, detail[k].0, detail[k].1)
      {
        var listed := ListLessons(tenant, rows[i]);
        assert forall k :: 0 <= k < i ==> detail[k].0 == ModulesOf(detail)[k];
        detail := detail + [(rows[i], listed)];
      }
      assert rows[..|rows|] == rows;
    }

    method ListLessons(tenant: Uuid, m: Uuid) returns (out: seq<Uuid>)
      ensures IsListing(lessons, tenant, m, out)
    {
      var visible := set id | id in lessons && Visible(lessons, tenant, m, id);
      var ls := lessons;
      out := Sorted(visible, (id: Uuid) => if id in ls then ls[id].orderIndex else 0);
      assert forall i :: 0 <= i < |out| ==> out[i] in out;
    }
  }

  lemma OneMoreUpdate(before: Lessons, tenant: Uuid, m: Uuid, ids: seq<Uuid>, id: Uuid)
    ensures var was := Reordered(before, tenant, m, ids);
            Reordered(before, tenant, m, ids + [id]) ==
            if Belongs(was, tenant, m, id) then was[id := was[id].(orderIndex := |ids|)] else was
  {
    var was, now := Reordered(before, tenant, m, ids), Reordered(before, tenant, m, ids + [id]);
    assert (ids + [id])[..|ids|] == ids;
    forall other | other in before
      ensures now[other] == if other == id && Belongs(before, tenant, m, id)
                            then was[other].(orderIndex := |ids|) else was[other]
    {
      assert other in ids + [id] <==> other in ids || other == id;
      assert LastIndex(ids + [id], other) == if other == id then |ids| else LastIndex(ids, other);
    }
  }

  /******* Reading back *******/

  /** The request as the listing shows it: visible lessons only, each at its last occurrence. */
  function Shown(lessons: Lessons, tenant: Uuid, m: Uuid, ids: seq<Uuid>): seq<Uuid> {
    if ids == [] then []
    else
      (if Visible(lessons, tenant, m, ids[0]) && ids[0] !in ids[1..] then [ids[0]] else [])
      + Shown(lessons, tenant, m, ids[1..])
  }

  /** The ids in `out` stand in the order of their last occurrences in `ids`, from position `from` on. */
  ghost predicate InOrderOf(out: seq<Uuid>, ids: seq<Uuid>, from: nat) {
    && (forall id <- out :: id in ids && LastIndex(ids, id) >= from)
    && (forall i, j :: 0 <= i < j < |out| ==> LastIndex(ids, out[i]) < LastIndex(ids, out[j]))
  }

  lemma {:induction false} ShownInOrder(lessons: Lessons, tenant: Uuid, m: Uuid, ids: seq<Uuid>, from: nat)
    requires from <= |ids|
    ensures InOrderOf(Shown(lessons, tenant, m, ids[from..]), ids, from)
    ensures forall id :: id in Shown(lessons, tenant, m, ids[from..]) <==>
              Visible(lessons, tenant, m, id) && LastIndex(ids, id) >= from
    decreases |ids| - from
  {
    if from < |ids| {
      ShownInOrder(lessons, tenant, m, ids, from + 1);
      assert ids[from..][1..] == ids[from + 1..];
      var id := ids[from];
      assert id in ids[from + 1..] <==> LastIndex(ids, id) > from by {
        if LastIndex(ids, id) > from {
          assert ids[LastIndex(ids, id)] == ids[from + 1..][LastIndex(ids, id) - from - 1];
        }
      }
    }
  }

  /** Two sequences with the same members, both strictly increasing in the same key, are equal. */
  lemma {:induction false} OneStrictOrder(a: seq<Uuid>, b: seq<Uuid>, ids: seq<Uuid>)
    requires InOrderOf(a, ids, 0) && InOrderOf(b, ids, 0)
    requires forall id :: id in a <==> id in b
    ensures a == b
  {
    assert a != [] ==> a[0] in b;
    assert b != [] ==> b[0] in a;
    if a != [] {
      var i :| 0 <= i < |b| && b[i] == a[0];
      var j :| 0 <= j < |a| && a[j] == b[0];
      assert a[0] == b[0];
      TailMembers(a, ids);
      TailMembers(b, ids);
      OneStrictOrder(a[1..], b[1..], ids);
    }
  }

  lemma TailMembers(a: seq<Uuid>, ids: seq<Uuid>)
    requires a != [] && InOrderOf(a, ids, 0)
    ensures InOrderOf(a[1..], ids, 0)
    ensures forall id :: id in a[1..] <==> id in a && id != a[0]
  {
    assert a == [a[0]] + a[1..];
    assert forall k :: 0 < k < |a| ==> a[k] != a[0];
    assert forall k :: 0 <= k < |a| - 1 ==> a[1..][k] == a[k + 1];
  }

  /** Every visible lesson the request names has the index of its last occurrence; the rest is as before. */
  lemma AfterReorder(lessons: Lessons, tenant: Uuid, m: Uuid, ids: seq<Uuid>, id: Uuid)
    ensures var after := Reordered(lessons, tenant, m, ids);
            && (Visible(after, tenant, m, id) <==> Visible(lessons, tenant, m, id))
            && (Visible(lessons, tenant, m, id) && id in ids ==> after[id].orderIndex == LastIndex(ids, id))
  {}

  lemma ShownIsListing(lessons: Lessons, tenant: Uuid, m: Uuid, ids: seq<Uuid>)
    requires forall id :: Visible(lessons, tenant, m, id) ==> id in ids
    ensures IsListing(Reordered(lessons, tenant, m, ids), tenant, m, Shown(lessons, tenant, m, ids))
  {
    var after, shown := Reordered(lessons, tenant, m, ids), Shown(lessons, tenant, m, ids);
    ShownInOrder(lessons, tenant, m, ids, 0);
    assert ids[0..] == ids;
    forall id ensures Visible(after, tenant, m, id) <==> id in shown {
      AfterReorder(lessons, tenant, m, ids, id);
    }
    forall i | 0 <= i < |shown| ensures Visible(after, tenant, m, shown[i]) {
      assert shown[i] in shown;
    }
    forall i, j | 0 <= i < j < |shown| ensures after[shown[i]].orderIndex <= after[shown[j]].orderIndex {
      AfterReorder(lessons, tenant, m, ids, shown[i]);
      AfterReorder(lessons, tenant, m, ids, shown[j]);
    }
  }

  /** Reorder, then read: when the request names every visible lesson of the module, whatever else it names
      and however often, there is one listing left, and it is the request. */
  lemma ReorderThenList(lessons: Lessons, tenant: Uuid, m: Uuid, ids: seq<Uuid>, out: seq<Uuid>)
    requires forall id :: Visible(lessons, tenant, m, id) ==> id in ids
    ensures IsListing(Reordered(lessons, tenant, m, ids), tenant, m, out) <==> out == Shown(lessons, tenant, m, ids)
  {
    var after, shown := Reordered(lessons, tenant, m, ids), Shown(lessons, tenant, m, ids);
    ShownIsListing(lessons, tenant, m, ids);
    if IsListing(after, tenant, m, out) {
      forall id | Visible(after, tenant, m, id) ensures id in ids && after[id].orderIndex == LastIndex(ids, id) {
        AfterReorder(lessons, tenant, m, ids, id);
      }
      ListingInOrder(after, tenant, m, ids, out);
      ListingInOrder(after, tenant, m, ids, shown);
      SameMembers(after, tenant, m, out, shown);
      OneStrictOrder(out, shown, ids);
    }
  }

  lemma SameMembers(lessons: Lessons, tenant: Uuid, m: Uuid, a: seq<Uuid>, b: seq<Uuid>)
    requires IsListing(lessons, tenant, m, a) && IsListing(lessons, tenant, m, b)
    ensures forall id :: id in a <==> id in b
  {
    forall id ensures id in a <==> id in b {
      if id in a { assert Visible(lessons, tenant, m, id); }
      if id in b { assert Visible(lessons, tenant, m, id); }
    }
  }

  lemma ListingInOrder(lessons: Lessons, tenant: Uuid, m: Uuid, ids: seq<Uuid>, out: seq<Uuid>)
    requires IsListing(lessons, tenant, m, out)
    requires forall id :: Visible(lessons, tenant, m, id) ==> id in ids && lessons[id].orderIndex == LastIndex(ids, id)
    ensures InOrderOf(out, ids, 0)
  {
    forall i, j | 0 <= i < j < |out| ensures LastIndex(ids, out[i]) < LastIndex(ids, out[j]) {
      assert out[i] in out && out[j] in out && out[i] != out[j];
      assert ids[LastIndex(ids, out[i])] == out[i];
    }
  }

  function VisibleOnly(lessons: Lessons, tenant: Uuid, m: Uuid, ids: seq<Uuid>): seq<Uuid> {
    if ids == [] then []
    else (if Visible(lessons, tenant, m, ids[0]) then [ids[0]] else []) + VisibleOnly(lessons, tenant, m, ids[1..])
  }

  /** For a request without duplicates, what is shown is the request without the lessons that are not visible. */
  lemma {:induction false} ShownOnce(lessons: Lessons, tenant: Uuid, m: Uuid, ids: seq<Uuid>)
    requires NoDuplicates(ids)
    ensures Shown(lessons, tenant, m, ids) == VisibleOnly(lessons, tenant, m, ids)
  {
    if ids != [] {
      assert forall k :: 0 <= k < |ids| - 1 ==> ids[1..][k] == ids[k + 1];
      ShownOnce(lessons, tenant, m, ids[1..]);
    }
  }

  lemma SortedByIndex(lessons: Lessons, tenant: Uuid, m: Uuid, ids: seq<Uuid>, out: seq<Uuid>, i: nat, j: nat)
    requires IsListing(lessons, tenant, m, out)
    requires i < j < |out| && out[i] in ids && out[j] in ids
    requires lessons[out[i]].orderIndex == LastIndex(ids, out[i])
             && lessons[out[j]].orderIndex == LastIndex(ids, out[j])
    ensures LastIndex(ids, out[i]) < LastIndex(ids, out[j])
  {
    assert ids[LastIndex(ids, out[i])] == out[i] && ids[LastIndex(ids, out[j])] == out[j];
  }

  /** For any request: the lessons it names come out in the order of their last occurrences in it. */
  lemma NamedLessonsInOrder(lessons: Lessons, tenant: Uuid, m: Uuid, ids: seq<Uuid>, out: seq<Uuid>, i: nat, j: nat)
    requires IsListing(Reordered(lessons, tenant, m, ids), tenant, m, out)
    requires i < |out| && j < |out| && out[i] in ids && out[j] in ids
    ensures LastIndex(ids, out[i]) < LastIndex(ids, out[j]) <==> i < j
  {
    var after := Reordered(lessons, tenant, m, ids);
    assert Visible(after, tenant, m, out[i]) && Visible(after, tenant, m, out[j]);
    AfterReorder(lessons, tenant, m, ids, out[i]);
    AfterReorder(lessons, tenant, m, ids, out[j]);
    if i < j {
      SortedByIndex(after, tenant, m, ids, out, i, j);
    } else if j < i {
      SortedByIndex(after, tenant, m, ids, out, j, i);
    }
  }

  /** The listings of every other module are what they were. */
  lemma OtherModulesUntouched(lessons: Lessons, tenant: Uuid, m: Uuid, ids: seq<Uuid>,
                              t: Uuid, other: Uuid, out: seq<Uuid>)
    requires t != tenant || other != m
    ensures IsListing(Reordered(lessons, tenant, m, ids), t, other, out) <==> IsListing(lessons, t, other, out)
  {
    var after := Reordered(lessons, tenant, m, ids);
    assert forall id :: Visible(after, t, other, id) <==> Visible(lessons, t, other, id);
    assert forall id :: Visible(lessons, t, other, id) ==> after[id] == lessons[id];
    assert forall id <- out :: id in out;
  }

  /** On the course page, the reordered module shows the request, and every other module what it could show. */
  lemma CoursePageFollowsReorder(modules: map<Uuid, Module>, lessons: Lessons, tenant: Uuid, course: Uuid, m: Uuid,
                                 ids: seq<Uuid>, detail: seq<(Uuid, seq<Uuid>)>, i: nat)
    requires forall id :: Visible(lessons, tenant, m, id) ==> id in ids
    requires IsCourseDetail(modules, Reordered(lessons, tenant, m, ids), tenant, course, detail) && i < |detail|
    ensures if detail[i].0 == m then detail[i].1 == Shown(lessons, tenant, m, ids)
            else IsListing(lessons, tenant, detail[i].0, detail[i].1)
  {
    assert IsListing(Reordered(lessons, tenant, m, ids), tenant, detail[i].0, detail[i].1);
    if detail[i].0 == m {
      ReorderThenList(lessons, tenant, m, ids, detail[i].1);
    } else {
      OtherModulesUntouched(lessons, tenant, m, ids, tenant, detail[i].0, detail[i].1);
    }
  }
}
