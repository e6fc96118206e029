/**
 * server/controllers/lessonController.js over the in-memory store:
 * `getLessonById` (content filled in on first read), `updateLesson` and
 * the transactional `deleteLesson`.
 */
module LessonController {
  import opened Text
  import opened Seqs
  import opened Models
  import opened Db
  import opened CourseAssembly
  import opened CourseController

  /** The lesson's `course` ref names a stored course: `Course.findById(lesson.course)` finds it. */
  predicate HasParent(courses: map<Id, Course>, l: Lesson) {
    l.courseId.Some? && l.courseId.value in courses
  }

  /** The requester owns the lesson's parent course. */
  predicate OwnsLesson(courses: map<Id, Course>, l: Lesson, sub: Option<string>) {
    HasParent(courses, l) && Owns(courses, l.courseId.value, sub)
  }

  // ---------------------------------------------------------------- getLessonById

  /** A video id that is found and is not the empty string: `if (videoId)` holds. */
  predicate Truthy(v: Option<string>) {
    v.Some? && v.value != ""
  }

  /**
   * The lesson once its content is filled in: the generated blocks, cast
   * to the schema, replace the content, and only a truthy found video id
   * replaces the stored one (a failed search counts as `null`).
   */
  function Hydrated(l: Lesson, blocks: seq<RawBlock>, video: Outcome<Option<string>>): (r: Lesson)
    ensures r.content == CastBlocks(blocks)
    ensures r.title == l.title && r.objectives == l.objectives && r.isCompleted == l.isCompleted
    ensures r.moduleId == l.moduleId && r.courseId == l.courseId
    ensures video.Returned? && Truthy(video.value) ==> r.youtubeVideoId == video.value
    ensures !(video.Returned? && Truthy(video.value)) ==> r.youtubeVideoId == l.youtubeVideoId
  {
    var found := if video.Returned? then video.value else None;
    l.(content := CastBlocks(blocks), youtubeVideoId := if Truthy(found) then found else l.youtubeVideoId)
  }

  /**
   * The save after hydration passes validation exactly when every
   * generated block has a `type` and a `content`.
   */
  lemma HydratedValidIff(l: Lesson, blocks: seq<RawBlock>, video: Outcome<Option<string>>)
    requires LessonValid(l)
    ensures LessonValid(Hydrated(l, blocks, video)) <==> BlocksComplete(blocks)
  {
    BlocksCompleteIff(blocks);
  }

  /**
   * `getLessonById` with `content` what the lesson generator did and
   * `video` what the video finder did (both started together). A missing
   * lesson is 404; a lesson with content is returned as stored, and
   * neither provider matters; an empty one is filled in and saved, unless
   * the generator threw or the filled lesson fails validation (500, not
   * saved).
   */
  method GetLessonById(store: Store, id: Id, content: Outcome<seq<RawBlock>>, video: Outcome<Option<string>>)
    returns (res: Result<Lesson>)
    requires store.Valid()
    modifies store
    ensures store.Valid()
    ensures id !in old(store.lessons) ==> res == Err(NotFound) && unchanged(store)
    ensures id in old(store.lessons) && old(store.lessons[id].content) != [] ==>
      res == Ok(old(store.lessons[id])) && unchanged(store)
    ensures id in old(store.lessons) && old(store.lessons[id].content) == [] && content.Threw? ==>
      res == Err(ServerError) && unchanged(store)
    ensures id in old(store.lessons) && old(store.lessons[id].content) == [] && content.Returned?
            && !LessonValid(Hydrated(old(store.lessons[id]), content.value, video)) ==>
      res == Err(ServerError) && unchanged(store)
    ensures id in old(store.lessons) && old(store.lessons[id].content) == [] && content.Returned?
            && LessonValid(Hydrated(old(store.lessons[id]), content.value, video)) ==>
      && res == Ok(Hydrated(old(store.lessons[id]), content.value, video))
      && store.lessons == old(store.lessons)[id := Hydrated(old(store.lessons[id]), content.value, video)]
      && store.courses == old(store.courses) && store.modules == old(store.modules) && store.nextId == old(store.nextId)
  {
    if id !in store.lessons {
      res := Err(NotFound);
      return;
    }
    var lesson := store.lessons[id];
    if lesson.content == [] {
      if content.Threw? {
        res := Err(ServerError);
        return;
      }
      var found := if video.Returned? then video.value else None;
      lesson := lesson.(content := CastBlocks(content.value));
      if Truthy(found) {
        lesson := lesson.(youtubeVideoId := found);
      }
      if !LessonValid(lesson) {
        res := Err(ServerError);
        return;
      }
      store.SaveLesson(id, lesson);
    }
    res := Ok(lesson);
  }

  // ---------------------------------------------------------------- updateLesson

  /**
   * The body of an update request: a missing or falsy `title` is "",
   * missing `content` is `None` (any array is truthy).
   */
  datatype LessonEdit = LessonEdit(title: string, content: Option<seq<RawBlock>>)

  /**
   * `lesson.title = title || lesson.title` (the schema's setter trims it)
   * and `lesson.content = content || lesson.content` (cast to the schema).
   */
  function EditedLesson(l: Lesson, e: LessonEdit): (r: Lesson)
    ensures e.title == "" ==> r.title == l.title
    ensures e.title != "" ==> r.title == Trim(e.title)
    ensures e.content.None? ==> r.content == l.content
    ensures e.content.Some? ==> r.content == CastBlocks(e.content.value)
    ensures r.objectives == l.objectives && r.isCompleted == l.isCompleted && r.youtubeVideoId == l.youtubeVideoId
    ensures r.moduleId == l.moduleId && r.courseId == l.courseId
  {
    l.(title := if e.title != "" then Trim(e.title) else l.title,
       content := if e.content.Some? then CastBlocks(e.content.value) else l.content)
  }

  /** `trim()` of a trimmed string changes nothing. */
  lemma TrimIdempotent(s: string)
    ensures Trim(Trim(s)) == Trim(s)
  {
    TrimEdges(s);
    TrimKeeps(Trim(s));
  }

  /** Sending the same edit twice changes nothing the second time. */
  lemma EditedLessonIdempotent(l: Lesson, e: LessonEdit)
    ensures EditedLesson(EditedLesson(l, e), e) == EditedLesson(l, e)
  {
    TrimIdempotent(e.title);
  }

  /**
   * The save after an edit of a valid lesson passes validation exactly
   * when a supplied title is not blank and supplied blocks all have a
   * `type` and a `content`.
   */
  lemma EditedLessonValidIff(l: Lesson, e: LessonEdit)
    requires LessonValid(l)
    ensures LessonValid(EditedLesson(l, e)) <==>
      (e.title == "" || Trim(e.title) != "") && (e.content.None? || BlocksComplete(e.content.value))
  {
    if e.content.Some? {
      BlocksCompleteIff(e.content.value);
    }
  }

  /** A title of whitespace only is truthy, so it is assigned, trimmed to "", and the save fails. */
  lemma {:induction false} BlankTitleRejected(l: Lesson, e: LessonEdit)
    requires e.title != "" && forall i :: 0 <= i < |e.title| ==> IsSpace(e.title[i])
    ensures !LessonValid(EditedLesson(l, e))
  {
    TrimLeadingSpace(e.title, "");
    assert e.title + "" == e.title;
  }

  /**
   * `updateLesson`: 404 for a missing lesson or a missing parent course,
   * 401 unless the requester owns that course; then the edit is applied
   * and saved, or, when the edited lesson fails validation, nothing is
   * saved (500).
   */
  method UpdateLesson(store: Store, id: Id, sub: Option<string>, e: LessonEdit) returns (res: Result<Lesson>)
    requires store.Valid()
    modifies store
    ensures store.Valid()
    ensures id !in old(store.lessons) ==> res == Err(NotFound) && unchanged(store)
    ensures id in old(store.lessons) && !HasParent(old(store.courses), old(store.lessons[id])) ==>
      res == Err(NotFound) && unchanged(store)
    ensures id in old(store.lessons) && HasParent(old(store.courses), old(store.lessons[id]))
            && !OwnsLesson(old(store.courses), old(store.lessons[id]), sub) ==>
      res == Err(Unauthorized) && unchanged(store)
    ensures id in old(store.lessons) && OwnsLesson(old(store.courses), old(store.lessons[id]), sub)
            && !LessonValid(EditedLesson(old(store.lessons[id]), e)) ==>
      res == Err(ServerError) && unchanged(store)
    ensures id in old(store.lessons) && OwnsLesson(old(store.courses), old(store.lessons[id]), sub)
            && LessonValid(EditedLesson(old(store.lessons[id]), e)) ==>
      && res == Ok(EditedLesson(old(store.lessons[id]), e))
      && store.lessons == old(store.lessons)[id := EditedLesson(old(store.lessons[id]), e)]
      && store.courses == old(store.courses) && store.modules == old(store.modules) && store.nextId == old(store.nextId)
  {
    if id !in store.lessons {
      res := Err(NotFound);
      return;
    }
    var lesson := store.lessons[id];
    if lesson.courseId.None? || lesson.courseId.value !in store.courses {
      res := Err(NotFound);
      return;
    }
    var course := store.courses[lesson.courseId.value];
    if sub.None? || course.creator != sub.value {
      res := Err(Unauthorized);
      return;
    }
    lesson := lesson.(title := if e.title != "" then Trim(e.title) else lesson.title);
    lesson := lesson.(content := if e.content.Some? then CastBlocks(e.content.value) else lesson.content);
    if !LessonValid(lesson) {
      res := Err(ServerError);
      return;
    }
    store.SaveLesson(id, lesson);
    res := Ok(lesson);
  }

  // ---------------------------------------------------------------- deleteLesson

  /**
   * `$pull` takes every occurrence of the lesson id out of its module's
   * list, keeps the other ids in order, and leaves the module's other
   * fields and every other module alone; it changes nothing when the id
   * is not listed.
   */
  lemma PulledExact(modules: map<Id, Module>, mid: Id, lid: Id)
    requires mid in modules
    ensures mid in Pulled(modules, mid, lid)
    ensures Pulled(modules, mid, lid)[mid].title == modules[mid].title
    ensures Pulled(modules, mid, lid)[mid].courseId == modules[mid].courseId
    ensures forall x :: x in Pulled(modules, mid, lid)[mid].lessons <==> x in modules[mid].lessons && x != lid
    ensures IsSubsequence(Pulled(modules, mid, lid)[mid].lessons, modules[mid].lessons)
    ensures forall k :: k != mid ==> (k in Pulled(modules, mid, lid) <==> k in modules)
    ensures forall k :: k != mid && k in modules ==> Pulled(modules, mid, lid)[k] == modules[k]
    ensures lid !in modules[mid].lessons ==> Pulled(modules, mid, lid) == modules
  {
    var keep := x => x != lid;
    FilterMembers(modules[mid].lessons, keep);
    FilterIsSubsequence(modules[mid].lessons, keep);
    if lid !in modules[mid].lessons {
      FilterAllKept(modules[mid].lessons, keep);
      assert modules[mid].(lessons := modules[mid].lessons) == modules[mid];
    }
  }

  /**
   * `deleteLesson`, one transaction: 404 for a missing lesson or parent
   * course, 401 unless the requester owns that course, and 500 when a
   * step throws (`txFails`); each of these aborts and changes nothing.
   * Otherwise the lesson id is pulled from its module's list and the
   * lesson is deleted.
   */
  method DeleteLesson(store: Store, id: Id, sub: Option<string>, txFails: bool) returns (res: Result<()>)
    requires store.Valid()
    modifies store
    ensures store.Valid()
    ensures id !in old(store.lessons) ==> res == Err(NotFound) && unchanged(store)
    ensures id in old(store.lessons) && !HasParent(old(store.courses), old(store.lessons[id])) ==>
      res == Err(NotFound) && unchanged(store)
    ensures id in old(store.lessons) && HasParent(old(store.courses), old(store.lessons[id]))
            && !OwnsLesson(old(store.courses), old(store.lessons[id]), sub) ==>
      res == Err(Unauthorized) && unchanged(store)
    ensures id in old(store.lessons) && OwnsLesson(old(store.courses), old(store.lessons[id]), sub) && txFails ==>
      res == Err(ServerError) && unchanged(store)
    ensures id in old(store.lessons) && OwnsLesson(old(store.courses), old(store.lessons[id]), sub) && !txFails ==>
      && res == Ok(())
      && store.modules == Pulled(old(store.modules), old(store.lessons[id].moduleId), id)
      && store.lessons == old(store.lessons) - {id}
      && store.courses == old(store.courses) && store.nextId == old(store.nextId)
  {
    if id !in store.lessons {
      res := Err(NotFound);
      return;
    }
    var lesson := store.lessons[id];
    if lesson.courseId.None? || lesson.courseId.value !in store.courses {
      res := Err(NotFound);
      return;
    }
    var course := store.courses[lesson.courseId.value];
    if sub.None? || course.creator != sub.value {
      res := Err(Unauthorized);
      return;
    }
    if txFails {
      res := Err(ServerError);
      return;
    }
    store.PullLesson(lesson.moduleId, id);
    store.DeleteLessonRow(id);
    res := Ok(());
  }
}
