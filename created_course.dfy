/**
 * What `getCourseById` returns for a course `createCourse` has just
 * assembled: the modules it created, in outline order, each with the
 * lessons planned for it; after a failed assembly the course lists no
 * modules and the `Module.find({ course })` fallback shows the partial
 * course, the incomplete module last and empty.
 */
module CreatedCourse {
  import opened Models
  import opened Db
  import opened CourseAssembly
  import opened CourseController

  /** The module ids an assembly pushes are increasing. */
  lemma AssembledIncreasing(t0: Tables, cid: Id, mos: seq<ModuleOutline>, replies: (nat, nat) -> Replies, r: Assembly)
    requires TablesValid(t0) && cid < t0.nextId && r == Assemble(t0, cid, mos, replies)
    ensures forall a, b :: 0 <= a < b < |r.mids| ==> r.mids[a] < r.mids[b]
  {
    forall q | 0 <= q < |r.mids| - 1
      ensures r.mids[q] < r.mids[q + 1]
    {
      AssembleFresh(t0, [], cid, mos, 0, LessonPlans(cid, mos, replies), r, q);
    }
    forall a, b | 0 <= a < b < |r.mids|
      ensures r.mids[a] < r.mids[b]
    {
      AdjacentIncreasing(r.mids, a, b);
    }
  }

  /**
   * The assembly gets through exactly when every entry of every outline
   * module is creatable, and then pushes one id per module; otherwise it
   * stops at the first module with an entry that is not, and that module's
   * id is the last one pushed.
   */
  lemma AssembledOutcome(t0: Tables, cid: Id, mos: seq<ModuleOutline>, replies: (nat, nat) -> Replies, r: Assembly)
    requires r == Assemble(t0, cid, mos, replies)
    ensures r.ok <==> forall q :: 0 <= q < |mos| ==> ModuleComplete(mos[q], q, replies)
    ensures r.ok ==> |r.mids| == |mos|
    ensures !r.ok ==> 0 < |r.mids| <= |mos| && !ModuleComplete(mos[|r.mids| - 1], |r.mids| - 1, replies)
    ensures !r.ok ==> forall q :: 0 <= q < |r.mids| - 1 ==> ModuleComplete(mos[q], q, replies)
  {
    var plans := LessonPlans(cid, mos, replies);
    assert r == AssembleFrom(t0, [], cid, mos, 0, plans);
    LessonPlansComplete(cid, mos, replies);
    AssembleOk(t0, [], cid, mos, 0, plans, replies, r);
    ModulesCompleteIff(mos, 0, replies);
    AssembleIds(t0, [], cid, mos, 0, plans, r);
    if !r.ok {
      AssembleStop(t0, [], cid, mos, 0, plans, replies, r, |r.mids| - 1);
      forall q | 0 <= q < |r.mids| - 1
        ensures ModuleComplete(mos[q], q, replies)
      {
        AssembleStopFirst(t0, [], cid, mos, 0, plans, replies, r, q);
      }
    }
  }

  /**
   * For a course inserted just before the assembly (so no earlier module
   * can belong to it), `Module.find({ course })` afterwards lists exactly
   * the pushed module ids, in push order.
   */
  lemma AssembledModulesOf(t0: Tables, cid: Id, mos: seq<ModuleOutline>, replies: (nat, nat) -> Replies, r: Assembly)
    requires TablesValid(t0) && t0.nextId == cid + 1 && r == Assemble(t0, cid, mos, replies)
    ensures ModulesOf(r.tables.modules, cid, r.tables.nextId) == r.mids
  {
    var T := r.tables;
    AssembleValid(t0, [], cid, mos, 0, LessonPlans(cid, mos, replies), r);
    forall j | 0 <= j < |r.mids|
      ensures r.mids[j] < T.nextId && OfCourse(T.modules, cid, r.mids[j])
    {
      AssembleFresh(t0, [], cid, mos, 0, LessonPlans(cid, mos, replies), r, j);
    }
    forall k | 0 <= k < T.nextId && OfCourse(T.modules, cid, k)
      ensures k in r.mids
    {
      if k !in t0.modules {
        AssembleNew(t0, [], cid, mos, 0, LessonPlans(cid, mos, replies), r, k);
      }
    }
    AssembledIncreasing(t0, cid, mos, replies, r);
    ModulesOfExactly(T.modules, cid, T.nextId, r.mids);
  }

  /**
   * Whether the assembly got through (the course lists the pushed ids) or
   * not (the course lists none), `getCourseById` shows the pushed modules
   * in push order.
   */
  lemma CreatedView(courses: map<Id, Course>, t0: Tables, cid: Id, mos: seq<ModuleOutline>,
                    replies: (nat, nat) -> Replies, r: Assembly)
    requires TablesValid(t0) && t0.nextId == cid + 1 && r == Assemble(t0, cid, mos, replies)
    requires cid in courses && courses[cid].modules == (if r.ok then r.mids else [])
    ensures GetCourseById(courses, r.tables, cid)
         == Ok(CourseView(cid, courses[cid], ModuleViews(r.tables.modules, r.tables.lessons, r.mids)))
  {
    AssembledModulesOf(t0, cid, mos, replies, r);
  }

  /** A built module populates to its planned lessons, under the ids right after it, in plan order. */
  lemma BuiltView(T: Tables, mid: Id, cid: Id, title: string, plan: seq<Lesson>)
    requires ModuleBuilt(T, mid, cid, title, plan)
    ensures |LessonViews(T.lessons, T.modules[mid].lessons)| == |plan|
    ensures forall k :: 0 <= k < |plan| ==> LessonViews(T.lessons, T.modules[mid].lessons)[k] == LessonView(mid + 1 + k, plan[k])
  {
    var lids := Consecutive(mid + 1, |plan|);
    ConsecutiveAt(mid + 1, |plan|);
    forall j | 0 <= j < |lids|
      ensures lids[j] in T.lessons && T.lessons[lids[j]] == plan[j]
    {
      assert Stores(T.lessons, mid + 1 + j, plan[j]);
    }
    LessonViewsAll(T.lessons, lids);
  }

  /**
   * Module `q` of that view: the id pushed for outline module `q`, its
   * title, and either the lessons planned for its entries under the ids
   * right after it (a module the loop got through) or no lessons (the
   * module a failed assembly stopped at).
   */
  lemma CreatedModule(t0: Tables, cid: Id, mos: seq<ModuleOutline>, replies: (nat, nat) -> Replies, r: Assembly,
                      v: seq<ModuleView>, q: nat)
    requires TablesValid(t0) && cid < t0.nextId && r == Assemble(t0, cid, mos, replies)
    requires v == ModuleViews(r.tables.modules, r.tables.lessons, r.mids) && q < |r.mids|
    ensures |v| == |r.mids| && q < |mos|
    ensures v[q].id == r.mids[q] && v[q].title == mos[q].title
    ensures r.ok || q < |r.mids| - 1 ==>
      && |v[q].lessons| == |mos[q].lessons|
      && forall k :: 0 <= k < |mos[q].lessons| ==>
           v[q].lessons[k] == LessonView(r.mids[q] + 1 + k, PlannedLesson(mos[q].lessons[k], replies(q, k), r.mids[q], cid))
    ensures !r.ok && q == |r.mids| - 1 ==> v[q].lessons == []
  {
    var T := r.tables;
    forall j | 0 <= j < |r.mids|
      ensures r.mids[j] in T.modules
    {
      AssembleFresh(t0, [], cid, mos, 0, LessonPlans(cid, mos, replies), r, j);
    }
    ModuleViewsAll(T.modules, T.lessons, r.mids);
    AssembleIds(t0, [], cid, mos, 0, LessonPlans(cid, mos, replies), r);
    var mid := r.mids[q];
    if r.ok || q < |r.mids| - 1 {
      var plans := LessonPlans(cid, mos, replies);
      AssembleStores(t0, [], cid, mos, 0, plans, r, q);
      BuiltView(T, mid, cid, mos[q].title, plans(mid, q));
      assert plans(mid, q) == ModulePlan(mid, cid, q, mos[q], replies);
    } else {
      AssembleShell(t0, [], cid, mos, 0, LessonPlans(cid, mos, replies), r);
    }
  }
}
