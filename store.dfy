/**
 * The database the controllers talk to, as an in-memory store: one map per
 * collection, and an id counter standing in for ObjectId generation.
 */
module Db {
  import opened Slug
  import opened Models
  import opened Seqs

  /** The slugs `owner` already uses: what the probe's `findOne({creator, slug})` sees. */
  function OwnerSlugs(cs: map<Id, Course>, owner: string): (r: set<string>)
    ensures forall k :: k in cs && cs[k].creator == owner ==> cs[k].slug in r
    ensures forall s :: s in r ==> exists k :: k in cs && cs[k].creator == owner && cs[k].slug == s
  {
    set k | k in cs && cs[k].creator == owner :: cs[k].slug
  }

  /** The unique (creator, slug) index of Course.js. */
  ghost predicate UniqueSlugs(cs: map<Id, Course>) {
    forall a, b :: a in cs && b in cs && a != b && cs[a].creator == cs[b].creator ==> cs[a].slug != cs[b].slug
  }

  /** A stored course: its required fields are set and its slug has the probe's shape. */
  predicate StoredCourse(c: Course) {
    CourseValid(c) && SlugShaped(c.slug)
  }

  /** Every entry of `m` is still in `m'`, unchanged. */
  ghost predicate Extends<V>(m: map<Id, V>, m': map<Id, V>) {
    forall k :: k in m ==> k in m' && m'[k] == m[k]
  }

  /** Every key of `m` was issued before `next`. */
  ghost predicate IssuedBefore<V>(m: map<Id, V>, next: Id) {
    forall k :: k in m ==> k < next
  }

  /** A second write under the same key replaces the first. */
  lemma Overwrite<V>(m: map<Id, V>, k: Id, v: V, w: V)
    ensures m[k := v][k := w] == m[k := w]
  {
  }

  /** `m` holds `v` under `k`. */
  predicate Stores<V(==)>(m: map<Id, V>, k: Id, v: V) {
    k in m && m[k] == v
  }

  /** `m` with the first `j` records of `vs` added under the consecutive ids `from`, `from + 1`, ... */
  function Placed<V>(m: map<Id, V>, from: Id, vs: seq<V>, j: nat): map<Id, V>
    requires j <= |vs|
  {
    if j == 0 then m else Placed(m, from, vs, j - 1)[from + j - 1 := vs[j - 1]]
  }

  lemma PlacedStep<V>(m: map<Id, V>, from: Id, vs: seq<V>, j: nat)
    requires j < |vs|
    ensures Placed(m, from, vs, j + 1) == Placed(m, from, vs, j)[from + j := vs[j]]
  {
  }

  /**
   * Placing records under ids not yet issued keeps every old entry, puts
   * `vs[i]` under `from + i`, and adds nothing else.
   */
  lemma {:induction false} PlacedFacts<V>(m: map<Id, V>, from: Id, vs: seq<V>, j: nat)
    requires j <= |vs| && IssuedBefore(m, from)
    ensures Extends(m, Placed(m, from, vs, j))
    ensures IssuedBefore(Placed(m, from, vs, j), from + j)
    ensures forall k :: from <= k < from + j ==> k in Placed(m, from, vs, j) && Placed(m, from, vs, j)[k] == vs[k - from]
    ensures forall k :: k in Placed(m, from, vs, j) && k !in m ==> from <= k
  {
    if j > 0 {
      PlacedFacts(m, from, vs, j - 1);
    }
  }

  /** Record `k` of the `j` placed is stored under `from + k`. */
  lemma {:induction false} PlacedAt<V>(m: map<Id, V>, from: Id, vs: seq<V>, j: nat, k: nat)
    requires k < j <= |vs|
    ensures Stores(Placed(m, from, vs, j), from + k, vs[k])
  {
    if k < j - 1 {
      PlacedAt(m, from, vs, j - 1, k);
    }
  }

  /** All records placed: `vs[k]` is stored under `from + k`. */
  lemma PlacedAll<V>(m: map<Id, V>, from: Id, vs: seq<V>)
    ensures forall k :: 0 <= k < |vs| ==> Stores(Placed(m, from, vs, |vs|), from + k, vs[k])
  {
    forall k | 0 <= k < |vs|
      ensures Stores(Placed(m, from, vs, |vs|), from + k, vs[k])
    {
      PlacedAt(m, from, vs, |vs|, k);
    }
  }

  /** The ids `from`, `from + 1`, ..., `from + n - 1`. */
  function Consecutive(from: Id, n: nat): seq<Id> {
    if n == 0 then [] else Consecutive(from, n - 1) + [from + n - 1]
  }

  lemma {:induction false} ConsecutiveAt(from: Id, n: nat)
    ensures |Consecutive(from, n)| == n
    ensures forall t :: 0 <= t < n ==> Consecutive(from, n)[t] == from + t
  {
    if n > 0 {
      ConsecutiveAt(from, n - 1);
    }
  }

  /** The two collections `createCourse` fills besides the course, and the id counter. */
  datatype Tables = Tables(modules: map<Id, Module>, lessons: map<Id, Lesson>, nextId: Id)

  /**
   * The counter covers both collections, every module was created after
   * its course, and every stored lesson passes validation.
   */
  ghost predicate TablesValid(t: Tables) {
    && IssuedBefore(t.modules, t.nextId)
    && IssuedBefore(t.lessons, t.nextId)
    && (forall k :: k in t.modules ==> t.modules[k].courseId < k)
    && forall k :: k in t.lessons ==> LessonValid(t.lessons[k])
  }

  class Store {
    var courses: map<Id, Course>
    var modules: map<Id, Module>
    var lessons: map<Id, Lesson>
    /** The id the next insert receives; ids are never reused. */
    var nextId: Id

    ghost predicate Valid()
      reads this
    {
      && IssuedBefore(courses, nextId)
      && TablesValid(Tables(modules, lessons, nextId))
      && UniqueSlugs(courses)
      && (forall k :: k in courses ==> StoredCourse(courses[k]))
    }

    constructor ()
      ensures Valid()
      ensures courses == map[] && modules == map[] && lessons == map[]
    {
      courses, modules, lessons := map[], map[], map[];
      nextId := 0;
    }

    /** `Course.create` of a record that passed validation: it gets the next id. */
    method InsertCourse(c: Course) returns (id: Id)
      requires Valid() && StoredCourse(c) && c.slug !in OwnerSlugs(courses, c.creator)
      modifies this
      ensures Valid()
      ensures id == old(nextId) && nextId == id + 1
      ensures courses == old(courses)[id := c] && modules == old(modules) && lessons == old(lessons)
    {
      id := nextId;
      AddKeepsUnique(courses, id, c);
      courses := courses[id := c];
      nextId := nextId + 1;
    }

    /** `save()` of a course whose creator and slug are unchanged. */
    method SaveCourse(id: Id, c: Course)
      requires Valid() && id in courses && StoredCourse(c)
      requires c.creator == courses[id].creator && c.slug == courses[id].slug
      modifies this
      ensures Valid()
      ensures courses == old(courses)[id := c] && modules == old(modules) && lessons == old(lessons)
      ensures nextId == old(nextId)
    {
      ReplaceKeepsUnique(courses, id, c);
      courses := courses[id := c];
    }

    /**
     * Writes back what an assembly produced: the module and lesson
     * collections and the advanced id counter; courses are untouched.
     */
    method Commit(t: Tables)
      requires Valid() && TablesValid(t) && nextId <= t.nextId
      modifies this
      ensures Valid()
      ensures courses == old(courses) && modules == t.modules && lessons == t.lessons && nextId == t.nextId
    {
      modules, lessons, nextId := t.modules, t.lessons, t.nextId;
    }

    /** `Lesson.deleteMany({ course: cid })`. */
    method DeleteLessonsOf(cid: Id)
      requires Valid()
      modifies this
      ensures Valid()
      ensures lessons == LessonsOutside(old(lessons), cid)
      ensures courses == old(courses) && modules == old(modules) && nextId == old(nextId)
    {
      lessons := LessonsOutside(lessons, cid);
    }

    /** `Module.deleteMany({ course: cid })`. */
    method DeleteModulesOf(cid: Id)
      requires Valid()
      modifies this
      ensures Valid()
      ensures modules == ModulesOutside(old(modules), cid)
      ensures courses == old(courses) && lessons == old(lessons) && nextId == old(nextId)
    {
      modules := ModulesOutside(modules, cid);
    }

    /** `Course.findByIdAndDelete(id)`. */
    method DeleteCourseRow(id: Id)
      requires Valid()
      modifies this
      ensures Valid()
      ensures courses == old(courses) - {id}
      ensures modules == old(modules) && lessons == old(lessons) && nextId == old(nextId)
    {
      courses := courses - {id};
    }

    /** `save()` of a lesson that passes validation. */
    method SaveLesson(id: Id, l: Lesson)
      requires Valid() && id in lessons && LessonValid(l)
      modifies this
      ensures Valid()
      ensures lessons == old(lessons)[id := l]
      ensures courses == old(courses) && modules == old(modules) && nextId == old(nextId)
    {
      lessons := lessons[id := l];
    }

    /** `Module.findByIdAndUpdate(mid, { $pull: { lessons: lid } })`. */
    method PullLesson(mid: Id, lid: Id)
      requires Valid()
      modifies this
      ensures Valid()
      ensures modules == Pulled(old(modules), mid, lid)
      ensures courses == old(courses) && lessons == old(lessons) && nextId == old(nextId)
    {
      if mid in modules {
        modules := modules[mid := modules[mid].(lessons := Filter(modules[mid].lessons, x => x != lid))];
      }
    }

    /** `lesson.deleteOne()`. */
    method DeleteLessonRow(id: Id)
      requires Valid()
      modifies this
      ensures Valid()
      ensures lessons == old(lessons) - {id}
      ensures courses == old(courses) && modules == old(modules) && nextId == old(nextId)
    {
      lessons := lessons - {id};
    }

    /** The module and lesson collections with the id counter. */
    function Children(): Tables
      reads this
    {
      Tables(modules, lessons, nextId)
    }
  }

  /** What `Lesson.deleteMany({ course: cid })` leaves: the lessons whose `course` ref is not `cid`. */
  function LessonsOutside(lessons: map<Id, Lesson>, cid: Id): map<Id, Lesson> {
    map k | k in lessons && lessons[k].courseId != Some(cid) :: lessons[k]
  }

  /** What `Module.deleteMany({ course: cid })` leaves: the modules of other courses. */
  function ModulesOutside(modules: map<Id, Module>, cid: Id): map<Id, Module> {
    map k | k in modules && modules[k].courseId != cid :: modules[k]
  }

  /** `$pull` of `lid` from the lesson list of module `mid`, when that module exists. */
  function Pulled(modules: map<Id, Module>, mid: Id, lid: Id): map<Id, Module> {
    if mid in modules then modules[mid := modules[mid].(lessons := Filter(modules[mid].lessons, x => x != lid))]
    else modules
  }

  /**
   * Adding a course whose slug is not among its creator's slugs keeps the
   * (creator, slug) index unique.
   */
  lemma AddKeepsUnique(cs: map<Id, Course>, id: Id, c: Course)
    requires UniqueSlugs(cs) && id !in cs
    requires c.slug !in OwnerSlugs(cs, c.creator)
    ensures UniqueSlugs(cs[id := c])
  {
    var cs' := cs[id := c];
    forall a, b | a in cs' && b in cs' && a != b && cs'[a].creator == cs'[b].creator
      ensures cs'[a].slug != cs'[b].slug
    {
      if a == id {
        assert cs[b].slug in OwnerSlugs(cs, c.creator);
      } else if b == id {
        assert cs[a].slug in OwnerSlugs(cs, c.creator);
      }
    }
  }

  /** Rewriting a course without touching its creator or slug keeps the index unique. */
  lemma ReplaceKeepsUnique(cs: map<Id, Course>, id: Id, c: Course)
    requires UniqueSlugs(cs) && id in cs
    requires c.creator == cs[id].creator && c.slug == cs[id].slug
    ensures UniqueSlugs(cs[id := c])
  {
    var cs' := cs[id := c];
    forall a, b | a in cs' && b in cs' && a != b && cs'[a].creator == cs'[b].creator
      ensures cs'[a].slug != cs'[b].slug
    {
      assert cs'[a].creator == cs[a].creator && cs'[a].slug == cs[a].slug;
      assert cs'[b].creator == cs[b].creator && cs'[b].slug == cs[b].slug;
    }
  }

  // ---------------------------------------------------------------- reads

  /**
   * `populate` of a list of lesson refs: each ref is replaced by the lesson
   * it names, in list order; refs to lessons that do not exist are dropped.
   */
  function LessonViews(lessons: map<Id, Lesson>, ids: seq<Id>): (r: seq<LessonView>)
    ensures |r| <= |ids|
    ensures forall j :: 0 <= j < |r| ==> r[j].id in ids && r[j].id in lessons && r[j].lesson == lessons[r[j].id]
  {
    if ids == [] then []
    else if ids[0] in lessons then [LessonView(ids[0], lessons[ids[0]])] + LessonViews(lessons, ids[1..])
    else LessonViews(lessons, ids[1..])
  }

  /** When every ref resolves, nothing is dropped and the order is the list's. */
  lemma {:induction false} LessonViewsAll(lessons: map<Id, Lesson>, ids: seq<Id>)
    requires forall j :: 0 <= j < |ids| ==> ids[j] in lessons
    ensures |LessonViews(lessons, ids)| == |ids|
    ensures forall j :: 0 <= j < |ids| ==> LessonViews(lessons, ids)[j] == LessonView(ids[j], lessons[ids[j]])
  {
    if ids != [] {
      LessonViewsAll(lessons, ids[1..]);
    }
  }

  /**
   * `populate` of a list of module refs, each module's own lesson refs
   * populated in turn; refs to modules that do not exist are dropped.
   */
  function ModuleViews(modules: map<Id, Module>, lessons: map<Id, Lesson>, ids: seq<Id>): (r: seq<ModuleView>)
    ensures |r| <= |ids|
    ensures forall j :: 0 <= j < |r| ==>
      && r[j].id in ids && r[j].id in modules
      && r[j].title == modules[r[j].id].title
      && r[j].lessons == LessonViews(lessons, modules[r[j].id].lessons)
  {
    if ids == [] then []
    else if ids[0] in modules then
      [ModuleView(ids[0], modules[ids[0]].title, LessonViews(lessons, modules[ids[0]].lessons))] + ModuleViews(modules, lessons, ids[1..])
    else ModuleViews(modules, lessons, ids[1..])
  }

  /** When every module ref resolves, nothing is dropped and the order is the list's. */
  lemma {:induction false} ModuleViewsAll(modules: map<Id, Module>, lessons: map<Id, Lesson>, ids: seq<Id>)
    requires forall j :: 0 <= j < |ids| ==> ids[j] in modules
    ensures |ModuleViews(modules, lessons, ids)| == |ids|
    ensures forall j :: 0 <= j < |ids| ==> ModuleViews(modules, lessons, ids)[j].id == ids[j]
  {
    if ids != [] {
      ModuleViewsAll(modules, lessons, ids[1..]);
    }
  }

  /** Module `k` exists and belongs to course `cid`. */
  predicate OfCourse(modules: map<Id, Module>, cid: Id, k: Id) {
    k in modules && modules[k].courseId == cid
  }

  /**
   * `Module.find({ course: cid })` over the ids below `n`: the modules of
   * course `cid`. The query has no `sort`, so the database promises no
   * order; the model lists them by increasing id (insertion order).
   */
  function ModulesOf(modules: map<Id, Module>, cid: Id, n: nat): seq<Id> {
    if n == 0 then []
    else if OfCourse(modules, cid, n - 1) then ModulesOf(modules, cid, n - 1) + [n - 1]
    else ModulesOf(modules, cid, n - 1)
  }

  /** The lookup finds every module of the course below `n`, and nothing else. */
  lemma {:induction false} ModulesOfFinds(modules: map<Id, Module>, cid: Id, n: nat)
    ensures forall j :: 0 <= j < |ModulesOf(modules, cid, n)| ==>
      ModulesOf(modules, cid, n)[j] < n && OfCourse(modules, cid, ModulesOf(modules, cid, n)[j])
    ensures forall k :: 0 <= k < n && OfCourse(modules, cid, k) ==> k in ModulesOf(modules, cid, n)
  {
    if n > 0 {
      ModulesOfFinds(modules, cid, n - 1);
    }
  }

  /** The lookup lists the modules in increasing id order. */
  lemma {:induction false} ModulesOfIncreasing(modules: map<Id, Module>, cid: Id, n: nat)
    ensures forall a, b :: 0 <= a < b < |ModulesOf(modules, cid, n)| ==> ModulesOf(modules, cid, n)[a] < ModulesOf(modules, cid, n)[b]
  {
    if n > 0 {
      ModulesOfIncreasing(modules, cid, n - 1);
      ModulesOfFinds(modules, cid, n - 1);
    }
  }

  /** In an increasing list of ids below `n` that holds `n - 1`, it is the last one. */
  lemma IncreasingLast(ids: seq<Id>, n: nat)
    requires forall j :: 0 <= j < |ids| ==> ids[j] < n
    requires forall a, b :: 0 <= a < b < |ids| ==> ids[a] < ids[b]
    requires n >= 1 && n - 1 in ids
    ensures ids != [] && ids[|ids| - 1] == n - 1
    ensures forall j :: 0 <= j < |ids| - 1 ==> ids[j] < n - 1
    ensures forall k :: k in ids && k != n - 1 ==> k in ids[..|ids| - 1]
  {
    forall k | k in ids && k != n - 1
      ensures k in ids[..|ids| - 1]
    {
      var i :| 0 <= i < |ids| && ids[i] == k;
      assert ids[..|ids| - 1][i] == k;
    }
  }

  /** A list that grows at every step grows between any two positions. */
  lemma {:induction false} AdjacentIncreasing(ids: seq<Id>, a: nat, b: nat)
    requires forall q :: 0 <= q < |ids| - 1 ==> ids[q] < ids[q + 1]
    requires a < b < |ids|
    ensures ids[a] < ids[b]
    decreases b - a
  {
    if a + 1 < b {
      AdjacentIncreasing(ids, a + 1, b);
    }
  }

  /**
   * The modules of course `cid` below `n` are exactly the increasing list
   * `ids`: then that is the list the lookup returns.
   */
  lemma {:induction false} ModulesOfExactly(modules: map<Id, Module>, cid: Id, n: nat, ids: seq<Id>)
    requires forall j :: 0 <= j < |ids| ==> ids[j] < n && OfCourse(modules, cid, ids[j])
    requires forall k :: 0 <= k < n && OfCourse(modules, cid, k) ==> k in ids
    requires forall a, b :: 0 <= a < b < |ids| ==> ids[a] < ids[b]
    ensures ModulesOf(modules, cid, n) == ids
  {
    if n > 0 {
      if OfCourse(modules, cid, n - 1) {
        IncreasingLast(ids, n);
        var front := ids[..|ids| - 1];
        ModulesOfExactly(modules, cid, n - 1, front);
        assert ids == front + [n - 1];
      } else {
        ModulesOfExactly(modules, cid, n - 1, ids);
      }
    }
  }
}
