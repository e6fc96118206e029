/**
 * client/src/pages/Course.jsx: the page state of one course (the
 * populated course, the set of lessons marked complete, the error
 * message) and the handlers that update it.
 */
module CoursePage {
  import opened Seqs
  import opened Models

  /** The set with `id` added when it was absent and removed when it was present. */
  function Toggled(s: set<Id>, id: Id): (r: set<Id>)
    ensures id in r <==> id !in s
    ensures forall x :: x != id ==> (x in r <==> x in s)
  {
    if id in s then s - {id} else s + {id}
  }

  /** Toggling the same lesson twice restores the set. */
  lemma ToggleTwice(s: set<Id>, id: Id)
    ensures Toggled(Toggled(s, id), id) == s
  {
  }

  /** `module.lessons.filter(lesson => lesson._id !== lessonId)` applied to the module `moduleId` only. */
  function Pruned(m: ModuleView, moduleId: Id, lessonId: Id): ModuleView {
    if m.id == moduleId then m.(lessons := Filter(m.lessons, (l: LessonView) => l.id != lessonId)) else m
  }

  /** The modules after a lesson delete succeeded: `prevCourse.modules.map(...)`. */
  function AfterLessonDelete(ms: seq<ModuleView>, moduleId: Id, lessonId: Id): (r: seq<ModuleView>)
    ensures |r| == |ms|
    ensures forall i :: 0 <= i < |ms| ==> r[i] == Pruned(ms[i], moduleId, lessonId)
  {
    seq(|ms|, i requires 0 <= i < |ms| => Pruned(ms[i], moduleId, lessonId))
  }

  /**
   * After a delete, every module keeps its id and title; only the module
   * `moduleId` loses lessons, exactly those with id `lessonId`, and the
   * lessons left keep their order.
   */
  lemma AfterLessonDeleteExact(ms: seq<ModuleView>, moduleId: Id, lessonId: Id, i: nat)
    requires i < |ms|
    ensures AfterLessonDelete(ms, moduleId, lessonId)[i].id == ms[i].id
    ensures AfterLessonDelete(ms, moduleId, lessonId)[i].title == ms[i].title
    ensures ms[i].id != moduleId ==> AfterLessonDelete(ms, moduleId, lessonId)[i] == ms[i]
    ensures IsSubsequence(AfterLessonDelete(ms, moduleId, lessonId)[i].lessons, ms[i].lessons)
    ensures ms[i].id == moduleId ==> forall l {:trigger l in ms[i].lessons} ::
      l in AfterLessonDelete(ms, moduleId, lessonId)[i].lessons <==> l in ms[i].lessons && l.id != lessonId
  {
    var keep := (l: LessonView) => l.id != lessonId;
    FilterIsSubsequence(ms[i].lessons, keep);
    FilterMembers(ms[i].lessons, keep);
    if ms[i].id != moduleId {
      IsSubsequenceRefl(ms[i].lessons);
    }
  }

  /** `course.modules.reduce((total, module) => total + module.lessons.length, 0)`. */
  function TotalLessons(ms: seq<ModuleView>): nat {
    if ms == [] then 0 else |ms[0].lessons| + TotalLessons(ms[1..])
  }

  /** The count over two lists of modules is the sum of their counts. */
  lemma {:induction false} TotalLessonsAppend(a: seq<ModuleView>, b: seq<ModuleView>)
    ensures TotalLessons(a + b) == TotalLessons(a) + TotalLessons(b)
  {
    if a != [] {
      TotalLessonsAppend(a[1..], b);
      assert (a + b)[1..] == a[1..] + b;
    } else {
      assert a + b == b;
    }
  }

  /** Some module with id `moduleId` lists a lesson with id `lessonId`. */
  predicate Lists(ms: seq<ModuleView>, moduleId: Id, lessonId: Id) {
    exists i, j :: 0 <= i < |ms| && ms[i].id == moduleId && 0 <= j < |ms[i].lessons| && ms[i].lessons[j].id == lessonId
  }

  /**
   * A delete never raises the lesson count, and lowers it exactly when a
   * module with that id listed the lesson.
   */
  lemma {:induction false} AfterLessonDeleteTotal(ms: seq<ModuleView>, moduleId: Id, lessonId: Id)
    ensures TotalLessons(AfterLessonDelete(ms, moduleId, lessonId)) <= TotalLessons(ms)
    ensures TotalLessons(AfterLessonDelete(ms, moduleId, lessonId)) == TotalLessons(ms) <==> !Lists(ms, moduleId, lessonId)
  {
    if ms != [] {
      var r := AfterLessonDelete(ms, moduleId, lessonId);
      assert r[1..] == AfterLessonDelete(ms[1..], moduleId, lessonId);
      AfterLessonDeleteTotal(ms[1..], moduleId, lessonId);
      var keep := (l: LessonView) => l.id != lessonId;
      FilterLength(ms[0].lessons, keep);
      if Lists(ms, moduleId, lessonId) {
        var i, j :| 0 <= i < |ms| && ms[i].id == moduleId && 0 <= j < |ms[i].lessons| && ms[i].lessons[j].id == lessonId;
        if i > 0 {
          assert ms[1..][i - 1] == ms[i];
        }
      } else {
        forall i, j | 0 <= i < |ms[1..]| && ms[1..][i].id == moduleId && 0 <= j < |ms[1..][i].lessons|
          ensures ms[1..][i].lessons[j].id != lessonId
        {
          assert ms[1..][i] == ms[i + 1];
        }
      }
    }
  }

  /** The state of the course page once the course has loaded. */
  class CoursePage {
    var course: CourseView
    var completedLessons: set<Id>
    var error: string

    constructor (loaded: CourseView)
      ensures course == loaded && completedLessons == {} && error == ""
    {
      course := loaded;
      completedLessons := {};
      error := "";
    }

    /** `toggleLessonCompletion`: copy the set, then `delete` or `add` on the copy. */
    method ToggleLessonCompletion(lessonId: Id)
      modifies this
      ensures completedLessons == Toggled(old(completedLessons), lessonId)
      ensures course == old(course) && error == old(error)
    {
      var next := completedLessons;
      if lessonId in next {
        next := next - {lessonId};
      } else {
        next := next + {lessonId};
      }
      completedLessons := next;
    }

    /**
     * `handleDeleteLesson` once the delete request settled (`deleted`: it
     * succeeded): the lesson leaves its module in the local state, or the
     * state is kept and the error is set.
     */
    method HandleDeleteLesson(lessonId: Id, moduleId: Id, deleted: bool)
      modifies this
      ensures deleted ==> course == old(course).(modules := AfterLessonDelete(old(course.modules), moduleId, lessonId))
      ensures deleted ==> error == old(error)
      ensures !deleted ==> course == old(course) && error == "Failed to delete the lesson. Please try again."
      ensures completedLessons == old(completedLessons)
    {
      if deleted {
        course := course.(modules := AfterLessonDelete(course.modules, moduleId, lessonId));
      } else {
        error := "Failed to delete the lesson. Please try again.";
      }
    }
  }
}
