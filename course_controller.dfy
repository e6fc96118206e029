/**
 * server/controllers/courseController.js over the in-memory store:
 * `createCourse` (dedup, slug probe, assembly), the `getCourseById`
 * fallback, `deleteCourse` and `updateCourse`.
 */
module CourseController {
  import opened Text
  import opened Slug
  import opened Models
  import opened Db
  import opened CourseAssembly

  // ---------------------------------------------------------------- slug probe

  /** `slug` is the `suffix`-th candidate of `base`, it is free, and every earlier one is taken. */
  ghost predicate FirstFree(taken: set<string>, base: string, slug: string, suffix: nat) {
    && suffix >= 1
    && slug == Candidate(base, suffix)
    && slug !in taken
    && forall j :: 1 <= j < suffix ==> Candidate(base, j) in taken
  }

  /** The least free candidate is unique. */
  lemma FirstFreeUnique(taken: set<string>, base: string, s1: string, k1: nat, s2: string, k2: nat)
    requires FirstFree(taken, base, s1, k1) && FirstFree(taken, base, s2, k2)
    ensures k1 == k2 && s1 == s2
  {
  }

  /**
   * The `while (true)` probe: try `base`, then `base-2`, `base-3`, ... until
   * the candidate is not in `taken`, the creator's slugs (`OwnerSlugs`) that
   * each `findOne({ creator, slug })` consults.
   */
  method AllocateSlug(taken: set<string>, base: string) returns (slug: string, suffix: nat)
    ensures FirstFree(taken, base, slug, suffix)
  {
    slug, suffix := base, 1;
    ghost var probed: set<string> := {};
    while slug in taken
      invariant suffix >= 1 && slug == Candidate(base, suffix)
      invariant forall j :: 1 <= j < suffix ==> Candidate(base, j) in taken
      invariant probed <= taken
      invariant forall j :: j >= suffix ==> Candidate(base, j) !in probed
      decreases |taken - probed|
    {
      ghost var left := taken - probed;
      assert taken - (probed + {slug}) == left - {slug};
      forall j | j >= suffix + 1
        ensures Candidate(base, j) != slug
      {
        if Candidate(base, j) == slug {
          CandidateInjective(base, j, suffix);
        }
      }
      probed := probed + {slug};
      suffix := suffix + 1;
      slug := Candidate(base, suffix);
    }
  }

  // ---------------------------------------------------------------- dedup

  /** The two `findOne` filters of the dedup step. */
  datatype Query = BySlug(creator: string, slug: string) | ByTitle(creator: string, title: string)

  /**
   * `{ creator, slug }` matches exactly; `{ creator, title: /^topic$/i }`,
   * with the topic's regex characters escaped, matches a title equal to the
   * topic up to letter case.
   */
  predicate Matches(c: Course, q: Query) {
    match q
    case BySlug(creator, slug) => c.creator == creator && c.slug == slug
    case ByTitle(creator, title) => c.creator == creator && Lower(c.title) == Lower(title)
  }

  /** `findOne` over the ids below `n`: a matching course (the first inserted), or none. */
  function FindOne(cs: map<Id, Course>, q: Query, n: nat): (r: Option<Id>)
    ensures r.Some? ==> r.value < n && r.value in cs && Matches(cs[r.value], q)
    ensures r.None? ==> forall k :: 0 <= k < n && k in cs ==> !Matches(cs[k], q)
  {
    if n == 0 then None
    else match FindOne(cs, q, n - 1)
      case Some(k) => Some(k)
      case None => if n - 1 in cs && Matches(cs[n - 1], q) then Some(n - 1) else None
  }

  /**
   * The dedup short-circuit: only when the topic slugifies to something
   * non-empty, a course of the creator's with that slug, else one whose
   * title is the topic up to case.
   */
  function Existing(cs: map<Id, Course>, n: nat, creator: string, topic: string): Option<Id> {
    var topicSlug := Slugify(topic);
    if topicSlug == "" then None
    else match FindOne(cs, BySlug(creator, topicSlug), n)
      case Some(k) => Some(k)
      case None => FindOne(cs, ByTitle(creator, topic), n)
  }

  /** A course of `creator` that the dedup step treats as the same course as `topic`. */
  predicate SameCourse(c: Course, creator: string, topic: string) {
    c.creator == creator && (c.slug == Slugify(topic) || Lower(c.title) == Lower(topic))
  }

  /**
   * Dedup fires exactly when the topic has a non-empty slug and the creator
   * already has a course with that slug or with the topic as its title up
   * to case, and what it returns is such a course.
   */
  lemma ExistingIff(cs: map<Id, Course>, n: nat, creator: string, topic: string)
    ensures Existing(cs, n, creator, topic).Some? <==>
      Slugify(topic) != "" && exists k :: 0 <= k < n && k in cs && SameCourse(cs[k], creator, topic)
    ensures Existing(cs, n, creator, topic).Some? ==>
      var k := Existing(cs, n, creator, topic).value; k < n && k in cs && SameCourse(cs[k], creator, topic)
  {
    var ts := Slugify(topic);
    if ts != "" {
      var bySlug := FindOne(cs, BySlug(creator, ts), n);
      var byTitle := FindOne(cs, ByTitle(creator, topic), n);
      if bySlug.None? && byTitle.None? {
        forall k | 0 <= k < n && k in cs
          ensures !SameCourse(cs[k], creator, topic)
        {
          assert !Matches(cs[k], BySlug(creator, ts)) && !Matches(cs[k], ByTitle(creator, topic));
        }
      }
    }
  }

  // ---------------------------------------------------------------- createCourse

  /** A success: the existing course dedup found (200) or the course just created (201). */
  datatype Reply = Found(id: Id) | Created(id: Id)

  /** The course record `Course.create` is given for the outline `o`. */
  function Shell(o: Outline, creator: string, slug: string): Course {
    NewCourse(o.title, o.description, o.tags, creator, slug)
  }

  /** `createCourse` gets past the topic, user and dedup checks. */
  predicate Proceeds(cs: map<Id, Course>, n: nat, topic: string, sub: Option<string>) {
    topic != "" && sub.Some? && Existing(cs, n, sub.value, topic).None?
  }

  /**
   * `createCourse` for the requester whose user record carries `sub`
   * (`None`: no such user), with `outline` what the outline generator did
   * and `replies` what the content and video providers did per lesson.
   * Every early exit leaves the store as it was; after `Course.create`
   * the store holds the course and whatever the module loop built, and
   * the course lists its modules only when the loop got through.
   */
  method CreateCourse(store: Store, topic: string, sub: Option<string>, outline: Outcome<Outline>,
                      replies: (nat, nat) -> Replies)
    returns (res: Result<Reply>, ghost slug: string, ghost suffix: nat)
    requires store.Valid()
    modifies store
    ensures store.Valid()
    ensures topic == "" ==> res == Err(BadRequest) && unchanged(store)
    ensures topic != "" && sub.None? ==> res == Err(Unauthorized) && unchanged(store)
    ensures topic != "" && sub.Some? && Existing(old(store.courses), old(store.nextId), sub.value, topic).Some? ==>
      && res == Ok(Found(Existing(old(store.courses), old(store.nextId), sub.value, topic).value))
      && unchanged(store)
    ensures Proceeds(old(store.courses), old(store.nextId), topic, sub) && outline.Threw? ==>
      res == Err(ServerError) && unchanged(store)
    ensures Proceeds(old(store.courses), old(store.nextId), topic, sub) && outline.Returned? ==>
      FirstFree(OwnerSlugs(old(store.courses), sub.value), BaseSlug(outline.value.title, topic), slug, suffix)
    ensures Proceeds(old(store.courses), old(store.nextId), topic, sub) && outline.Returned?
            && !CourseValid(Shell(outline.value, sub.value, slug)) ==>
      res == Err(ServerError) && unchanged(store)
    ensures Proceeds(old(store.courses), old(store.nextId), topic, sub) && outline.Returned?
            && CourseValid(Shell(outline.value, sub.value, slug)) ==>
      var cid := old(store.nextId);
      var r := Assemble(Tables(old(store.modules), old(store.lessons), cid + 1), cid, outline.value.modules, replies);
      && store.courses == old(store.courses)[cid := Shell(outline.value, sub.value, slug).(modules := if r.ok then r.mids else [])]
      && store.Children() == r.tables
      && res == (if r.ok then Ok(Created(cid)) else Err(ServerError))
  {
    slug, suffix := "", 0;
    if topic == "" {
      res := Err(BadRequest);
      return;
    }
    if sub.None? {
      res := Err(Unauthorized);
      return;
    }
    var creator := sub.value;
    var found := Existing(store.courses, store.nextId, creator, topic);
    if found.Some? {
      res := Ok(Found(found.value));
      return;
    }
    if outline.Threw? {
      res := Err(ServerError);
      return;
    }
    var o := outline.value;
    var base := BaseSlug(o.title, topic);
    var s, k := AllocateSlug(OwnerSlugs(store.courses, creator), base);
    slug, suffix := s, k;
    var c := Shell(o, creator, s);
    if !CourseValid(c) {
      res := Err(ServerError);
      return;
    }
    CandidateShaped(base, k);
    SlugShapedIsTrimmed(s);
    var cid, ok, a := BuildCourse(store, c, o.modules, replies);
    res := if ok then Ok(Created(cid)) else Err(ServerError);
    assert cid == old(store.nextId);
    assert o == outline.value && creator == sub.value && s == slug;
    assert a == Assemble(Tables(old(store.modules), old(store.lessons), old(store.nextId) + 1), old(store.nextId), outline.value.modules, replies);
  }

  /**
   * From `Course.create` on: the course record `c` is inserted, the module
   * loop runs on the other collections, and the course is saved with its
   * module ids when the loop got through (otherwise the rejection escapes
   * and the stored course keeps `modules = []`).
   */
  method BuildCourse(store: Store, c: Course, mos: seq<ModuleOutline>, replies: (nat, nat) -> Replies)
    returns (cid: Id, ok: bool, ghost a: Assembly)
    requires store.Valid() && StoredCourse(c) && c.modules == []
    requires c.slug !in OwnerSlugs(store.courses, c.creator)
    modifies store
    ensures store.Valid()
    ensures cid == old(store.nextId)
    ensures a == Assemble(Tables(old(store.modules), old(store.lessons), cid + 1), cid, mos, replies)
    ensures ok == a.ok && store.Children() == a.tables
    ensures store.courses == old(store.courses)[cid := c.(modules := if ok then a.mids else [])]
  {
    ghost var cs0: map<Id, Course> := store.courses;
    cid := store.InsertCourse(c);
    var t0 := store.Children();
    assert t0 == Tables(old(store.modules), old(store.lessons), cid + 1);
    var t, mids;
    t, mids, ok := AssembleModules(t0, cid, mos, LessonPlans(cid, mos, replies));
    a := Assembly(t, mids, ok);
    AssembleValid(t0, [], cid, mos, 0, LessonPlans(cid, mos, replies), a);
    store.Commit(t);
    if ok {
      store.SaveCourse(cid, c.(modules := mids));
      Overwrite(cs0, cid, c, c.(modules := mids));
    } else {
      assert c.(modules := []) == c;
    }
  }

  // ---------------------------------------------------------------- getCourseById

  /**
   * `getCourseById` (no ownership check): the course with its module refs
   * populated, each module's lesson refs populated in turn; when that
   * leaves no module, the modules found by `Module.find({ course })`.
   */
  function GetCourseById(courses: map<Id, Course>, t: Tables, id: Id): (r: Result<CourseView>)
    ensures r.Err? <==> id !in courses
    ensures r.Err? ==> r.failure == NotFound
    ensures r.Ok? ==> r.value.id == id && r.value.course == courses[id]
  {
    if id !in courses then Err(NotFound)
    else
      var c := courses[id];
      var populated := ModuleViews(t.modules, t.lessons, c.modules);
      if populated == [] then Ok(CourseView(id, c, ModuleViews(t.modules, t.lessons, ModulesOf(t.modules, id, t.nextId))))
      else Ok(CourseView(id, c, populated))
  }

  // ---------------------------------------------------------------- ownership

  /** Course `id` exists and the requester's user record carries its creator's `sub`. */
  predicate Owns(courses: map<Id, Course>, id: Id, sub: Option<string>) {
    id in courses && sub.Some? && courses[id].creator == sub.value
  }

  // ---------------------------------------------------------------- deleteCourse

  /** The module and lesson collections once course `cid`'s lessons, then its modules, are deleted. */
  function Cascade(t: Tables, cid: Id): Tables {
    Tables(ModulesOutside(t.modules, cid), LessonsOutside(t.lessons, cid), t.nextId)
  }

  /**
   * `deleteCourse`: 404 for a missing course, 401 when there is no user
   * record (`sub` is `None`) or it is not the creator's; otherwise the
   * transaction deletes the course's lessons, its modules and the course,
   * all of it or (`txFails`: some step threw and the session aborted)
   * none of it.
   */
  method DeleteCourse(store: Store, id: Id, sub: Option<string>, txFails: bool) returns (res: Result<()>)
    requires store.Valid()
    modifies store
    ensures store.Valid()
    ensures id !in old(store.courses) ==> res == Err(NotFound) && unchanged(store)
    ensures id in old(store.courses) && !Owns(old(store.courses), id, sub) ==> res == Err(Unauthorized) && unchanged(store)
    ensures Owns(old(store.courses), id, sub) && txFails ==> res == Err(ServerError) && unchanged(store)
    ensures Owns(old(store.courses), id, sub) && !txFails ==>
      && res == Ok(())
      && store.courses == old(store.courses) - {id}
      && store.Children() == Cascade(old(store.Children()), id)
  {
    if id !in store.courses {
      res := Err(NotFound);
      return;
    }
    if sub.None? || store.courses[id].creator != sub.value {
      res := Err(Unauthorized);
      return;
    }
    if txFails {
      res := Err(ServerError);
      return;
    }
    store.DeleteLessonsOf(id);
    store.DeleteModulesOf(id);
    store.DeleteCourseRow(id);
    res := Ok(());
  }

  /**
   * After the cascade `Module.find({ course: cid })` finds nothing, and
   * finds for every other course what it found before.
   */
  lemma {:induction false} CascadeModulesOf(t: Tables, cid: Id, other: Id, n: nat)
    ensures ModulesOf(Cascade(t, cid).modules, cid, n) == []
    ensures other != cid ==> ModulesOf(Cascade(t, cid).modules, other, n) == ModulesOf(t.modules, other, n)
  {
    if n > 0 {
      CascadeModulesOf(t, cid, other, n - 1);
    }
  }

  /**
   * Deleting a course right after `createCourse` assembled it removes
   * every module and lesson the assembly added and nothing else: the
   * collections are what the cascade would have left before the
   * assembly.
   */
  lemma CascadeUndoesAssembly(t0: Tables, cid: Id, mos: seq<ModuleOutline>, replies: (nat, nat) -> Replies, r: Assembly)
    requires TablesValid(t0) && cid < t0.nextId && r == Assemble(t0, cid, mos, replies)
    ensures Cascade(r.tables, cid).modules == Cascade(t0, cid).modules
    ensures Cascade(r.tables, cid).lessons == Cascade(t0, cid).lessons
  {
    var T := r.tables;
    AssembleValid(t0, [], cid, mos, 0, LessonPlans(cid, mos, replies), r);
    forall k | k in T.modules && k !in t0.modules
      ensures T.modules[k].courseId == cid
    {
      AssembleNew(t0, [], cid, mos, 0, LessonPlans(cid, mos, replies), r, k);
      var q :| 0 <= q < |r.mids| && r.mids[q] == k;
      AssembleFresh(t0, [], cid, mos, 0, LessonPlans(cid, mos, replies), r, q);
    }
    LessonPlansFor(cid, mos, replies);
    forall k | k in T.lessons && k !in t0.lessons
      ensures T.lessons[k].courseId == Some(cid)
    {
      AssembleLessonsOf(t0, [], cid, mos, 0, LessonPlans(cid, mos, replies), r, k);
    }
  }

  // ---------------------------------------------------------------- updateCourse

  /**
   * The body of an update request. A missing or falsy `title` or
   * `description` is "", missing `tags` is `None`; any array, even an
   * empty one, is truthy.
   */
  datatype CourseEdit = CourseEdit(title: string, description: string, tags: Option<seq<string>>)

  /** `course.field = value || course.field` for title, description and tags. */
  function Edited(c: Course, e: CourseEdit): (r: Course)
    ensures r.slug == c.slug && r.creator == c.creator && r.modules == c.modules
    ensures e.title == "" ==> r.title == c.title
    ensures e.title != "" ==> r.title == e.title
    ensures e.description == "" ==> r.description == c.description
    ensures e.description != "" ==> r.description == e.description
    ensures r.tags == (if e.tags.Some? then e.tags.value else c.tags)
    ensures StoredCourse(c) ==> StoredCourse(r)
  {
    var t := if e.title != "" then e.title else c.title;
    var d := if e.description != "" then e.description else c.description;
    c.(title := t, description := d, tags := if e.tags.Some? then e.tags.value else c.tags)
  }

  /** Sending the same edit twice changes nothing the second time. */
  lemma EditedIdempotent(c: Course, e: CourseEdit)
    ensures Edited(Edited(c, e), e) == Edited(c, e)
  {
  }

  /** An edit with every field falsy or missing leaves the course as it was. */
  lemma EmptyEditKeeps(c: Course)
    ensures Edited(c, CourseEdit("", "", None)) == c
  {
  }

  /**
   * `updateCourse`: 404 for a missing course, 401 unless the requester
   * created it; otherwise the truthy fields replace the stored ones and
   * the course is saved. The slug and creator stay, so the save keeps the
   * (creator, slug) index unique and never fails validation.
   */
  method UpdateCourse(store: Store, id: Id, sub: Option<string>, e: CourseEdit) returns (res: Result<Course>)
    requires store.Valid()
    modifies store
    ensures store.Valid()
    ensures id !in old(store.courses) ==> res == Err(NotFound) && unchanged(store)
    ensures id in old(store.courses) && !Owns(old(store.courses), id, sub) ==> res == Err(Unauthorized) && unchanged(store)
    ensures Owns(old(store.courses), id, sub) ==>
      && res == Ok(Edited(old(store.courses[id]), e))
      && store.courses == old(store.courses)[id := Edited(old(store.courses[id]), e)]
      && store.Children() == old(store.Children())
  {
    if id !in store.courses {
      res := Err(NotFound);
      return;
    }
    var course := store.courses[id];
    if sub.None? || course.creator != sub.value {
      res := Err(Unauthorized);
      return;
    }
    course := course.(title := if e.title != "" then e.title else course.title);
    course := course.(description := if e.description != "" then e.description else course.description);
    course := course.(tags := if e.tags.Some? then e.tags.value else course.tags);
    store.SaveCourse(id, course);
    res := Ok(course);
  }
}
