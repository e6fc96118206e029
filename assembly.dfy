/**
 * The assembly half of `createCourse` in server/controllers/courseController.js:
 * for each outline module, `Module.create`, the push of its id, one
 * `Lesson.create` per entry with fault-isolated provider calls, and the
 * module's `save`.
 */
module CourseAssembly {
  import opened Text
  import opened Models
  import opened Db

  // ---------------------------------------------------------------- assembly

  /** An outline lesson: a bare string, or an object whose `title` is read. */
  datatype LessonEntry = Named(name: string) | Titled(title: string)

  function EntryTitle(e: LessonEntry): string {
    match e
    case Named(name) => name
    case Titled(title) => title
  }

  datatype ModuleOutline = ModuleOutline(title: string, lessons: seq<LessonEntry>)

  /** What `generateCourseOutline` returns. */
  datatype Outline = Outline(title: string, description: string, tags: seq<string>, modules: seq<ModuleOutline>)

  /** What the content generator and the video finder did for one lesson. */
  datatype Replies = Replies(content: Outcome<seq<RawBlock>>, video: Outcome<Option<string>>)

  /** The lesson `Lesson.create` is given for entry `e` of module `mid` of course `cid`. */
  function PlannedLesson(e: LessonEntry, rep: Replies, mid: Id, cid: Id): Lesson {
    var video := if rep.video.Returned? then rep.video.value else None;
    NewLesson(EntryTitle(e), ContentOf(rep), video, mid, Some(cid))
  }

  /** What the content generator's reply leaves in `contentBlocks`. */
  function ContentOf(rep: Replies): seq<RawBlock> {
    if rep.content.Returned? then rep.content.value else []
  }

  /**
   * Each provider call sits in its own `try`: a failed content call leaves
   * `[]`, a failed video call leaves `null`, and the lesson is still built
   * with its title and both refs.
   */
  lemma FaultIsolation(e: LessonEntry, rep: Replies, mid: Id, cid: Id)
    ensures var l := PlannedLesson(e, rep, mid, cid);
      && l.title == Trim(EntryTitle(e))
      && (rep.content.Threw? ==> l.content == [])
      && (rep.content.Returned? ==> l.content == CastBlocks(rep.content.value))
      && (rep.video.Threw? ==> l.youtubeVideoId == None)
      && (rep.video.Returned? ==> l.youtubeVideoId == rep.video.value)
      && l.moduleId == mid && l.courseId == Some(cid) && l.objectives == [] && !l.isCompleted
  {
  }

  /** Every block has a `type` and a `content`. */
  predicate BlocksComplete(bs: seq<RawBlock>) {
    bs == [] || (bs[0].kind != "" && bs[0].content != "" && BlocksComplete(bs[1..]))
  }

  lemma {:induction false} BlocksCompleteIff(bs: seq<RawBlock>)
    ensures BlocksComplete(bs) <==> forall i :: 0 <= i < |bs| ==> bs[i].kind != "" && bs[i].content != ""
  {
    if bs != [] {
      BlocksCompleteIff(bs[1..]);
      assert forall i :: 1 <= i < |bs| ==> bs[1..][i - 1] == bs[i];
    }
  }

  /** `Lesson.create` accepts the lesson for `e`: a non-blank title and complete blocks. */
  predicate Creatable(e: LessonEntry, rep: Replies) {
    Trim(EntryTitle(e)) != "" && BlocksComplete(ContentOf(rep))
  }

  /** `Creatable` is exactly Lesson.js's validation of the planned lesson, whatever its refs. */
  lemma CreatableIff(e: LessonEntry, rep: Replies, mid: Id, cid: Id)
    ensures LessonValid(PlannedLesson(e, rep, mid, cid)) <==> Creatable(e, rep)
  {
    var bs := ContentOf(rep);
    BlocksCompleteIff(bs);
    assert forall i :: 0 <= i < |bs| ==> (BlockValid(CastBlocks(bs)[i]) <==> bs[i].kind != "" && bs[i].content != "");
  }

  /** The lessons `Lesson.create` is given for the entries of outline module `p`, in order. */
  function PlannedLessons(entries: seq<LessonEntry>, p: nat, replies: (nat, nat) -> Replies, mid: Id, cid: Id): (r: seq<Lesson>)
    ensures |r| == |entries|
    ensures forall k :: 0 <= k < |entries| ==> r[k] == PlannedLesson(entries[k], replies(p, k), mid, cid)
  {
    seq(|entries|, k requires 0 <= k < |entries| => PlannedLesson(entries[k], replies(p, k), mid, cid))
  }

  /**
   * How many lessons of `plan`, from index `i` on, `Lesson.create` accepts
   * before the first one it rejects.
   */
  function AcceptedFrom(plan: seq<Lesson>, i: nat): (n: nat)
    requires i <= |plan|
    ensures i <= n <= |plan|
    decreases |plan| - i
  {
    if i == |plan| || !LessonValid(plan[i]) then i else AcceptedFrom(plan, i + 1)
  }

  /** How many lessons the lesson loop creates: it stops at the first rejected one. */
  function Accepted(plan: seq<Lesson>): nat {
    AcceptedFrom(plan, 0)
  }

  lemma {:induction false} AcceptedFromStops(plan: seq<Lesson>, i: nat)
    requires i <= |plan| && forall k :: 0 <= k < i ==> LessonValid(plan[k])
    ensures var n := AcceptedFrom(plan, i);
      && (forall k :: 0 <= k < n ==> LessonValid(plan[k]))
      && (n < |plan| ==> !LessonValid(plan[n]))
    decreases |plan| - i
  {
    if i < |plan| && LessonValid(plan[i]) {
      AcceptedFromStops(plan, i + 1);
    }
  }

  /**
   * In outline terms, the lesson loop creates exactly the leading creatable
   * entries: every entry before the stop is creatable, the one it stops at is
   * not, and it gets through the whole module exactly when every entry is
   * creatable.
   */
  lemma CreatedStops(entries: seq<LessonEntry>, p: nat, replies: (nat, nat) -> Replies, mid: Id, cid: Id)
    ensures var n := Accepted(PlannedLessons(entries, p, replies, mid, cid));
      && n <= |entries|
      && (forall k :: 0 <= k < n ==> Creatable(entries[k], replies(p, k)))
      && (n < |entries| ==> !Creatable(entries[n], replies(p, n)))
      && (n == |entries| <==> forall k :: 0 <= k < |entries| ==> Creatable(entries[k], replies(p, k)))
  {
    var plan := PlannedLessons(entries, p, replies, mid, cid);
    AcceptedFromStops(plan, 0);
    forall k | 0 <= k < |entries|
      ensures LessonValid(plan[k]) <==> Creatable(entries[k], replies(p, k))
    {
      CreatableIff(entries[k], replies(p, k), mid, cid);
    }
  }

  /** The lesson loop gets through the whole of `plan`. */
  predicate Completes(plan: seq<Lesson>) {
    Accepted(plan) == |plan|
  }

  /** The lesson loop gets through outline module `p` exactly when every one of its entries is creatable. */
  lemma CompleteIff(mo: ModuleOutline, p: nat, replies: (nat, nat) -> Replies, mid: Id, cid: Id)
    ensures Completes(ModulePlan(mid, cid, p, mo, replies)) <==> ModuleComplete(mo, p, replies)
  {
    CreatedStops(mo.lessons, p, replies, mid, cid);
  }

  /** Placing only accepted lessons keeps every stored lesson valid. */
  lemma {:induction false} PlacedValid(L0: map<Id, Lesson>, n0: Id, plan: seq<Lesson>, j: nat)
    requires j <= |plan| && forall k :: 0 <= k < j ==> LessonValid(plan[k])
    requires forall k :: k in L0 ==> LessonValid(L0[k])
    ensures forall k :: k in Placed(L0, n0, plan, j) ==> LessonValid(Placed(L0, n0, plan, j)[k])
  {
    if j > 0 {
      PlacedValid(L0, n0, plan, j - 1);
    }
  }

  /** Every lesson of outline module `p` is creatable. */
  predicate ModuleComplete(mo: ModuleOutline, p: nat, replies: (nat, nat) -> Replies) {
    forall k :: 0 <= k < |mo.lessons| ==> Creatable(mo.lessons[k], replies(p, k))
  }

  /**
   * A module titled `title` built on top of `t` for the lessons planned in
   * `plan`: `Module.create` under the next id, `Lesson.create` of the lessons in order under the ids after it up to
   * the first rejected one, and, when none was rejected, `module.save()`
   * with their ids; otherwise the module keeps its empty `lessons` list.
   */
  function BuiltTables(t: Tables, cid: Id, title: string, plan: seq<Lesson>): Tables {
    var mid := t.nextId;
    var n := Accepted(plan);
    var lids := if n == |plan| then Consecutive(mid + 1, n) else [];
    Tables(t.modules[mid := Module(title, cid, lids)], Placed(t.lessons, mid + 1, plan, n), mid + 1 + n)
  }

  /** The lessons planned for outline module `p`, stored as module `mid` of course `cid`. */
  function ModulePlan(mid: Id, cid: Id, p: nat, mo: ModuleOutline, replies: (nat, nat) -> Replies): seq<Lesson> {
    PlannedLessons(mo.lessons, p, replies, mid, cid)
  }

  /** The lessons the module loop is given for outline module `p` when it stores that module as `mid`. */
  type Plans = (Id, nat) -> seq<Lesson>

  /** The plans of `createCourse` for course `cid`: each module's entries with the providers' replies. */
  function LessonPlans(cid: Id, mos: seq<ModuleOutline>, replies: (nat, nat) -> Replies): Plans {
    (mid: Id, p: nat) => if p < |mos| then ModulePlan(mid, cid, p, mos[p], replies) else []
  }

  /** What the module loop produces: the collections, the ids pushed to `course.modules`, success. */
  datatype Assembly = Assembly(tables: Tables, mids: seq<Id>, ok: bool)

  /**
   * The module loop from outline module `i` on, with `t` built and `mids`
   * pushed so far. Each module's id is pushed right after `Module.create`;
   * the first incomplete module aborts the rest.
   */
  function AssembleFrom(t: Tables, mids: seq<Id>, cid: Id, mos: seq<ModuleOutline>, i: nat, plans: Plans): Assembly
    requires i <= |mos|
    decreases |mos| - i
  {
    if i == |mos| then Assembly(t, mids, true)
    else
      var t' := BuiltTables(t, cid, mos[i].title, plans(t.nextId, i));
      if !Completes(plans(t.nextId, i)) then Assembly(t', mids + [t.nextId], false)
      else AssembleFrom(t', mids + [t.nextId], cid, mos, i + 1, plans)
  }

  /** The whole module loop of `createCourse` for course `cid` on the collections `t0`. */
  function Assemble(t0: Tables, cid: Id, mos: seq<ModuleOutline>, replies: (nat, nat) -> Replies): Assembly {
    AssembleFrom(t0, [], cid, mos, 0, LessonPlans(cid, mos, replies))
  }

  /**
   * The lesson loop: `Lesson.create` of each planned lesson, in order,
   * under consecutive ids from `n0`, stopping at the first one that fails
   * validation. Returns the lesson collection, the id counter and the ids
   * `module.lessons.push` collected.
   */
  method CreateLessons(L0: map<Id, Lesson>, n0: Id, plan: seq<Lesson>)
    returns (lessons: map<Id, Lesson>, next: Id, lids: seq<Id>)
    ensures next == n0 + Accepted(plan)
    ensures lessons == Placed(L0, n0, plan, Accepted(plan))
    ensures lids == Consecutive(n0, Accepted(plan))
  {
    lessons, next, lids := L0, n0, [];
    var j := 0;
    while j < |plan|
      invariant 0 <= j <= |plan| && next == n0 + j
      invariant AcceptedFrom(plan, j) == Accepted(plan)
      invariant lessons == Placed(L0, n0, plan, j)
      invariant lids == Consecutive(n0, j)
    {
      if !LessonValid(plan[j]) {
        return;
      }
      PlacedStep(L0, n0, plan, j);
      lessons := lessons[next := plan[j]];
      lids := lids + [next];
      next := next + 1;
      j := j + 1;
    }
  }

  /**
   * One outline module: `Module.create` under the next id, the lesson loop
   * (each lesson's content and video fetched in its own `try`), then
   * `module.save()` with the lesson ids when every lesson was created.
   */
  method BuildModule(t: Tables, cid: Id, title: string, plan: seq<Lesson>)
    returns (t': Tables, ok: bool)
    ensures t' == BuiltTables(t, cid, title, plan)
    ensures ok <==> Accepted(plan) == |plan|
  {
    var mid := t.nextId;
    var lessons, next, lids := CreateLessons(t.lessons, mid + 1, plan);
    ok := next - (mid + 1) == |plan|;
    var m := if ok then Module(title, cid, lids) else Module(title, cid, []);
    t' := Tables(t.modules[mid := m], lessons, next);
  }

  /**
   * The module loop of `createCourse` on the collections `t0`, in outline
   * order, with `plans` giving each module's lessons (for `createCourse`,
   * `LessonPlans`: the entries with the providers' replies); the first
   * lesson that fails validation aborts the whole assembly (its rejection
   * escapes to the outer `catch`).
   */
  method AssembleModules(t0: Tables, cid: Id, mos: seq<ModuleOutline>, plans: Plans)
    returns (t: Tables, mids: seq<Id>, ok: bool)
    ensures Assembly(t, mids, ok) == AssembleFrom(t0, [], cid, mos, 0, plans)
  {
    t, mids, ok := t0, [], true;
    var i := 0;
    while i < |mos|
      invariant 0 <= i <= |mos|
      invariant AssembleFrom(t, mids, cid, mos, i, plans) == AssembleFrom(t0, [], cid, mos, 0, plans)
    {
      mids := mids + [t.nextId];
      var t', built := BuildModule(t, cid, mos[i].title, plans(t.nextId, i));
      if !built {
        t, ok := t', false;
        return;
      }
      t, i := t', i + 1;
    }
  }

  // ---------------------------------------------------------------- what the assembly promises

  /** Building one module keeps the collections valid and every earlier record in place. */
  lemma BuiltValid(t: Tables, cid: Id, title: string, plan: seq<Lesson>)
    requires TablesValid(t) && cid < t.nextId
    ensures TablesValid(BuiltTables(t, cid, title, plan))
    ensures t.nextId < BuiltTables(t, cid, title, plan).nextId
    ensures Extends(t.modules, BuiltTables(t, cid, title, plan).modules)
    ensures Extends(t.lessons, BuiltTables(t, cid, title, plan).lessons)
  {
    AcceptedFromStops(plan, 0);
    PlacedFacts(t.lessons, t.nextId + 1, plan, Accepted(plan));
    PlacedValid(t.lessons, t.nextId + 1, plan, Accepted(plan));
  }

  /**
   * The assembly keeps the collections valid, only adds records (every
   * module and lesson stored before is still there, unchanged), and only
   * advances the id counter.
   */
  lemma {:induction false} AssembleValid(t: Tables, mids: seq<Id>, cid: Id, mos: seq<ModuleOutline>, i: nat,
                                         plans: Plans, r: Assembly)
    requires i <= |mos| && TablesValid(t) && cid < t.nextId && r == AssembleFrom(t, mids, cid, mos, i, plans)
    ensures TablesValid(r.tables) && t.nextId <= r.tables.nextId
    ensures Extends(t.modules, r.tables.modules) && Extends(t.lessons, r.tables.lessons)
    decreases |mos| - i
  {
    if i < |mos| {
      var t' := BuiltTables(t, cid, mos[i].title, plans(t.nextId, i));
      BuiltValid(t, cid, mos[i].title, plans(t.nextId, i));
      if Completes(plans(t.nextId, i)) {
        AssembleValid(t', mids + [t.nextId], cid, mos, i + 1, plans, r);
      }
    }
  }

  /** Every outline module from `i` on is complete. */
  predicate ModulesComplete(mos: seq<ModuleOutline>, i: nat, replies: (nat, nat) -> Replies)
    requires i <= |mos|
    decreases |mos| - i
  {
    i == |mos| || (ModuleComplete(mos[i], i, replies) && ModulesComplete(mos, i + 1, replies))
  }

  lemma {:induction false} ModulesCompleteIff(mos: seq<ModuleOutline>, i: nat, replies: (nat, nat) -> Replies)
    requires i <= |mos|
    ensures ModulesComplete(mos, i, replies) <==> forall q :: i <= q < |mos| ==> ModuleComplete(mos[q], q, replies)
    decreases |mos| - i
  {
    if i < |mos| {
      ModulesCompleteIff(mos, i + 1, replies);
    }
  }

  /** `plans` gets through outline module `p`, whatever id it is stored under, exactly when the module is complete. */
  ghost predicate CompleteMatches(plans: Plans, mos: seq<ModuleOutline>, replies: (nat, nat) -> Replies) {
    forall mid: Id, p: nat :: p < |mos| ==> (Completes(plans(mid, p)) <==> ModuleComplete(mos[p], p, replies))
  }

  /** The plans of `createCourse` get through a module exactly when all of its entries are creatable. */
  lemma LessonPlansComplete(cid: Id, mos: seq<ModuleOutline>, replies: (nat, nat) -> Replies)
    ensures CompleteMatches(LessonPlans(cid, mos, replies), mos, replies)
  {
    forall mid: Id, p: nat | p < |mos|
      ensures Completes(LessonPlans(cid, mos, replies)(mid, p)) <==> ModuleComplete(mos[p], p, replies)
    {
      CompleteIff(mos[p], p, replies, mid, cid);
    }
  }

  /** The assembly succeeds exactly when every entry of every outline module is creatable. */
  lemma {:induction false} AssembleOk(t: Tables, mids: seq<Id>, cid: Id, mos: seq<ModuleOutline>, i: nat,
                                      plans: Plans, replies: (nat, nat) -> Replies, r: Assembly)
    requires i <= |mos| && r == AssembleFrom(t, mids, cid, mos, i, plans) && CompleteMatches(plans, mos, replies)
    ensures r.ok <==> ModulesComplete(mos, i, replies)
    decreases |mos| - i
  {
    if i < |mos| {
      if Completes(plans(t.nextId, i)) {
        AssembleOk(BuiltTables(t, cid, mos[i].title, plans(t.nextId, i)), mids + [t.nextId], cid, mos, i + 1, plans, replies, r);
      }
    }
  }

  /**
   * One id is pushed per outline module reached, after those pushed
   * before: all of them on success, fewer on failure.
   */
  lemma {:induction false} AssembleIds(t: Tables, mids: seq<Id>, cid: Id, mos: seq<ModuleOutline>, i: nat,
                                       plans: Plans, r: Assembly)
    requires i <= |mos| && r == AssembleFrom(t, mids, cid, mos, i, plans)
    ensures |mids| <= |r.mids| && forall q :: 0 <= q < |mids| ==> r.mids[q] == mids[q]
    ensures r.ok ==> |r.mids| == |mids| + |mos| - i
    ensures !r.ok ==> |mids| < |r.mids| <= |mids| + |mos| - i
    decreases |mos| - i
  {
    if i < |mos| {
      var plan := plans(t.nextId, i);
      var mids' := mids + [t.nextId];
      assert forall q :: 0 <= q < |mids| ==> mids'[q] == mids[q];
      if Completes(plan) {
        AssembleIds(BuiltTables(t, cid, mos[i].title, plan), mids', cid, mos, i + 1, plans, r);
      }
    }
  }

  /** On failure the last id pushed is that of an incomplete module. */
  lemma {:induction false} AssembleStop(t: Tables, mids: seq<Id>, cid: Id, mos: seq<ModuleOutline>, i: nat,
                                        plans: Plans, replies: (nat, nat) -> Replies, r: Assembly, f: nat)
    requires i <= |mos| && r == AssembleFrom(t, mids, cid, mos, i, plans) && CompleteMatches(plans, mos, replies)
    requires !r.ok && f == |r.mids| - |mids| - 1 + i
    ensures i <= f < |mos| && !ModuleComplete(mos[f], f, replies)
    decreases |mos| - i
  {
    AssembleIds(t, mids, cid, mos, i, plans, r);
    if Completes(plans(t.nextId, i)) {
      AssembleStop(BuiltTables(t, cid, mos[i].title, plans(t.nextId, i)), mids + [t.nextId], cid, mos, i + 1, plans, replies, r, f);
    }
  }

  /** ... and it is the first one: every module before it is complete. */
  lemma {:induction false} AssembleStopFirst(t: Tables, mids: seq<Id>, cid: Id, mos: seq<ModuleOutline>, i: nat,
                                             plans: Plans, replies: (nat, nat) -> Replies, r: Assembly, q: nat)
    requires i <= |mos| && r == AssembleFrom(t, mids, cid, mos, i, plans) && CompleteMatches(plans, mos, replies)
    requires i <= q < |r.mids| - |mids| - 1 + i
    ensures q < |mos| && ModuleComplete(mos[q], q, replies)
    decreases |mos| - i
  {
    AssembleIds(t, mids, cid, mos, i, plans, r);
    var plan := plans(t.nextId, i);
    assert Completes(plan);
    if q > i {
      AssembleStopFirst(BuiltTables(t, cid, mos[i].title, plan), mids + [t.nextId], cid, mos, i + 1, plans, replies, r, q);
    }
  }

  /**
   * Module `mid` of `T` is stored with the lessons of `plan` under the ids
   * right after it, and lists those ids in plan order.
   */
  ghost predicate ModuleBuilt(T: Tables, mid: Id, cid: Id, title: string, plan: seq<Lesson>) {
    && mid in T.modules
    && T.modules[mid] == Module(title, cid, Consecutive(mid + 1, |plan|))
    && forall k :: 0 <= k < |plan| ==> Stores(T.lessons, mid + 1 + k, plan[k])
  }

  /** A module whose plan is accepted in full is built in full. */
  lemma BuiltStores(t: Tables, cid: Id, title: string, plan: seq<Lesson>)
    requires Accepted(plan) == |plan|
    ensures ModuleBuilt(BuiltTables(t, cid, title, plan), t.nextId, cid, title, plan)
  {
    var mid := t.nextId;
    var T := BuiltTables(t, cid, title, plan);
    assert T.modules[mid] == Module(title, cid, Consecutive(mid + 1, |plan|));
    assert T.lessons == Placed(t.lessons, mid + 1, plan, |plan|);
    PlacedAll(t.lessons, mid + 1, plan);
  }

  /** A module with a rejected lesson is stored with no lessons listed. */
  lemma BuiltShell(t: Tables, cid: Id, title: string, plan: seq<Lesson>)
    requires Accepted(plan) != |plan|
    ensures t.nextId in BuiltTables(t, cid, title, plan).modules
    ensures BuiltTables(t, cid, title, plan).modules[t.nextId] == Module(title, cid, [])
  {
  }

  /** Adding records keeps a built module built. */
  lemma BuiltKept(T: Tables, T': Tables, mid: Id, cid: Id, title: string, plan: seq<Lesson>)
    requires ModuleBuilt(T, mid, cid, title, plan)
    requires Extends(T.modules, T'.modules) && Extends(T.lessons, T'.lessons)
    ensures ModuleBuilt(T', mid, cid, title, plan)
  {
    forall k | 0 <= k < |plan|
      ensures Stores(T'.lessons, mid + 1 + k, plan[k])
    {
      assert Stores(T.lessons, mid + 1 + k, plan[k]);
    }
  }

  /**
   * Every outline module the assembly got through is built, in the final
   * collections, under the id pushed for it, with the lessons planned for
   * its entries.
   */
  lemma {:induction false} AssembleStores(t: Tables, mids: seq<Id>, cid: Id, mos: seq<ModuleOutline>, i: nat,
                                          plans: Plans, r: Assembly, q: nat)
    requires i <= |mos| && TablesValid(t) && cid < t.nextId && r == AssembleFrom(t, mids, cid, mos, i, plans)
    requires |mids| == i && i <= q < |r.mids| && (r.ok || q < |r.mids| - 1)
    ensures q < |mos| && ModuleBuilt(r.tables, r.mids[q], cid, mos[q].title, plans(r.mids[q], q))
    decreases |mos| - i
  {
    AssembleIds(t, mids, cid, mos, i, plans, r);
    var plan := plans(t.nextId, i);
    var t' := BuiltTables(t, cid, mos[i].title, plan);
    BuiltValid(t, cid, mos[i].title, plan);
    if q == i {
      assert r.mids[q] == t.nextId by {
        AssembleIds(t', mids + [t.nextId], cid, mos, i + 1, plans, r);
      }
      assert ModuleBuilt(r.tables, t.nextId, cid, mos[i].title, plan) by {
        BuiltStores(t, cid, mos[i].title, plan);
        AssembleValid(t', mids + [t.nextId], cid, mos, i + 1, plans, r);
        BuiltKept(t', r.tables, t.nextId, cid, mos[i].title, plan);
      }
    } else {
      AssembleStores(t', mids + [t.nextId], cid, mos, i + 1, plans, r, q);
    }
  }

  /** On failure the last module pushed, the incomplete one, is stored with no lessons. */
  lemma {:induction false} AssembleShell(t: Tables, mids: seq<Id>, cid: Id, mos: seq<ModuleOutline>, i: nat,
                                         plans: Plans, r: Assembly)
    requires i <= |mos| && TablesValid(t) && cid < t.nextId && r == AssembleFrom(t, mids, cid, mos, i, plans)
    requires |mids| == i && !r.ok
    ensures 0 < |r.mids| <= |mos|
    ensures r.mids[|r.mids| - 1] in r.tables.modules
    ensures r.tables.modules[r.mids[|r.mids| - 1]] == Module(mos[|r.mids| - 1].title, cid, [])
    decreases |mos| - i
  {
    AssembleIds(t, mids, cid, mos, i, plans, r);
    var plan := plans(t.nextId, i);
    var t' := BuiltTables(t, cid, mos[i].title, plan);
    BuiltValid(t, cid, mos[i].title, plan);
    if Completes(plans(t.nextId, i)) {
      AssembleShell(t', mids + [t.nextId], cid, mos, i + 1, plans, r);
    } else {
      BuiltShell(t, cid, mos[i].title, plan);
    }
  }

  /**
   * The step from outline module `i`: the next id is pushed, it names a
   * stored module of course `cid`, and the counter moves past it.
   */
  lemma AssembleHead(t: Tables, mids: seq<Id>, cid: Id, mos: seq<ModuleOutline>, i: nat,
                     plans: Plans, r: Assembly)
    requires i < |mos| && TablesValid(t) && cid < t.nextId && r == AssembleFrom(t, mids, cid, mos, i, plans)
    ensures |mids| < |r.mids| && r.mids[|mids|] == t.nextId && t.nextId < r.tables.nextId
    ensures t.nextId in r.tables.modules && r.tables.modules[t.nextId].courseId == cid
  {
    var plan := plans(t.nextId, i);
    var t' := BuiltTables(t, cid, mos[i].title, plan);
    BuiltValid(t, cid, mos[i].title, plan);
    if Completes(plans(t.nextId, i)) {
      AssembleIds(t', mids + [t.nextId], cid, mos, i + 1, plans, r);
      AssembleValid(t', mids + [t.nextId], cid, mos, i + 1, plans, r);
    }
  }

  /**
   * The ids pushed are fresh, issued in increasing order, and each names a
   * stored module of course `cid`.
   */
  lemma {:induction false} AssembleFresh(t: Tables, mids: seq<Id>, cid: Id, mos: seq<ModuleOutline>, i: nat,
                                         plans: Plans, r: Assembly, q: nat)
    requires i <= |mos| && TablesValid(t) && cid < t.nextId && r == AssembleFrom(t, mids, cid, mos, i, plans)
    requires |mids| <= q < |r.mids|
    ensures t.nextId <= r.mids[q] < r.tables.nextId
    ensures r.mids[q] in r.tables.modules && r.tables.modules[r.mids[q]].courseId == cid
    ensures q + 1 < |r.mids| ==> r.mids[q] < r.mids[q + 1]
    decreases |mos| - i
  {
    AssembleIds(t, mids, cid, mos, i, plans, r);
    var t' := BuiltTables(t, cid, mos[i].title, plans(t.nextId, i));
    if q == |mids| {
      AssembleHead(t, mids, cid, mos, i, plans, r);
      if q + 1 < |r.mids| {
        BuiltValid(t, cid, mos[i].title, plans(t.nextId, i));
        AssembleHead(t', mids + [t.nextId], cid, mos, i + 1, plans, r);
      }
    } else {
      BuiltValid(t, cid, mos[i].title, plans(t.nextId, i));
      AssembleFresh(t', mids + [t.nextId], cid, mos, i + 1, plans, r, q);
    }
  }

  /** Every module the assembly adds is one whose id was pushed. */
  lemma {:induction false} AssembleNew(t: Tables, mids: seq<Id>, cid: Id, mos: seq<ModuleOutline>, i: nat,
                                       plans: Plans, r: Assembly, k: Id)
    requires i <= |mos| && TablesValid(t) && cid < t.nextId && r == AssembleFrom(t, mids, cid, mos, i, plans)
    requires k in r.tables.modules && k !in t.modules
    ensures k in r.mids
    decreases |mos| - i
  {
    if i < |mos| {
      var plan := plans(t.nextId, i);
      var t' := BuiltTables(t, cid, mos[i].title, plan);
      BuiltValid(t, cid, mos[i].title, plan);
      if !Completes(plans(t.nextId, i)) {
        assert r.mids == mids + [t.nextId];
      } else {
        if k in t'.modules {
          AssembleIds(t', mids + [t.nextId], cid, mos, i + 1, plans, r);
          assert r.mids[|mids|] == k;
        } else {
          AssembleNew(t', mids + [t.nextId], cid, mos, i + 1, plans, r, k);
        }
      }
    }
  }

  /** A lesson that building one module adds is one of the plan's. */
  lemma BuiltLessonFrom(t: Tables, cid: Id, title: string, plan: seq<Lesson>, k: Id)
    requires IssuedBefore(t.lessons, t.nextId)
    requires k in BuiltTables(t, cid, title, plan).lessons && k !in t.lessons
    ensures t.nextId + 1 <= k < t.nextId + 1 + |plan|
    ensures BuiltTables(t, cid, title, plan).lessons[k] == plan[k - t.nextId - 1]
  {
    PlacedFacts(t.lessons, t.nextId + 1, plan, Accepted(plan));
  }

  /** Every lesson planned refers to course `cid`. */
  ghost predicate PlansFor(plans: Plans, cid: Id) {
    forall mid: Id, p: nat, k :: 0 <= k < |plans(mid, p)| ==> plans(mid, p)[k].courseId == Some(cid)
  }

  /** The plans of `createCourse` give each lesson the course ref. */
  lemma LessonPlansFor(cid: Id, mos: seq<ModuleOutline>, replies: (nat, nat) -> Replies)
    ensures PlansFor(LessonPlans(cid, mos, replies), cid)
  {
    forall mid: Id, p: nat, k | 0 <= k < |LessonPlans(cid, mos, replies)(mid, p)|
      ensures LessonPlans(cid, mos, replies)(mid, p)[k].courseId == Some(cid)
    {
      assert p < |mos|;
      assert LessonPlans(cid, mos, replies)(mid, p)[k] == PlannedLesson(mos[p].lessons[k], replies(p, k), mid, cid);
    }
  }

  /** Every lesson the assembly adds refers to course `cid`. */
  lemma {:induction false} AssembleLessonsOf(t: Tables, mids: seq<Id>, cid: Id, mos: seq<ModuleOutline>, i: nat,
                                             plans: Plans, r: Assembly, k: Id)
    requires i <= |mos| && TablesValid(t) && cid < t.nextId && r == AssembleFrom(t, mids, cid, mos, i, plans)
    requires PlansFor(plans, cid)
    requires k in r.tables.lessons && k !in t.lessons
    ensures r.tables.lessons[k].courseId == Some(cid)
    decreases |mos| - i
  {
    if i < |mos| {
      var plan := plans(t.nextId, i);
      var t' := BuiltTables(t, cid, mos[i].title, plan);
      BuiltValid(t, cid, mos[i].title, plan);
      if Completes(plans(t.nextId, i)) {
        AssembleValid(t', mids + [t.nextId], cid, mos, i + 1, plans, r);
        if k in t'.lessons {
          BuiltLessonFrom(t, cid, mos[i].title, plan, k);
        } else {
          AssembleLessonsOf(t', mids + [t.nextId], cid, mos, i + 1, plans, r, k);
        }
      } else {
        BuiltLessonFrom(t, cid, mos[i].title, plan, k);
      }
    }
  }
}
