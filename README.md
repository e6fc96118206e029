# Course-AI course store, in Dafny

This project models the course store of Course-AI, an application that
generates a course from a topic. The server asks a language-model
provider for an outline, then creates the course, its modules and its
lessons, and fills a lesson's content on first read. The client pages
show, search, edit and delete those courses.

What the model covers:

- **Records.** `Models` models the records of `server/models/Course.js`
  and `server/models/Lesson.js`, and the Module record they both point
  to: their required fields, their defaults, and the schema cast of
  content blocks.
- **Store.** `Db` models the database as one class, `Db.Store`, with a
  map per collection and an id counter. Its invariant `Valid` carries
  the unique (creator, slug) index of `Course.js`.
- **Course controller.** `Slug`, `CourseAssembly`, `CourseController`
  and `CreatedCourse` model `server/controllers/courseController.js`:
  - `slugify` and the slug probe;
  - `createCourse`: topic check, user check, dedup, outline, slug,
    `Course.create`, then the module and lesson loops;
  - the `getCourseById` fallback;
  - the transactional cascade of `deleteCourse`;
  - the truthy-field update of `updateCourse`.
- **Lesson controller.** `LessonController` models
  `server/controllers/lessonController.js`:
  - lazy hydration in `getLessonById`;
  - `updateLesson`;
  - the transactional `$pull` and delete of `deleteLesson`.
- **Client pages.** `CoursePage`, `Dashboard` and `EditCourse` model
  the state updates and pure helpers of `client/src/pages/Course.jsx`,
  `Dashboard.jsx` and `EditCourse.jsx`.

External calls are inputs:

- The outline generator is an `Outcome<Outline>`, which either returns
  a value or throws.
- The per-lesson content and video calls are a function `replies` from
  (module index, lesson index) to a pair of outcomes.
- A transaction that throws part-way is a boolean `txFails`. The store
  is then left unchanged, because the session aborts all of its writes.

Ids are natural numbers from one counter. So creation order is id order,
and "the course shell before its modules, modules and lessons in outline
order" is stated through id order.

The model keeps these behaviours of the code:

- `slugify` trims before it strips characters. A slug can therefore
  keep a hyphen at either end: `" a ! "` gives `"a-"`
  (`SlugExamples.SlugifyKeepsEdgeHyphen`). A suffixed candidate of such
  a base holds `--` (`SlugExamples.SuffixedCandidateMayDoubleHyphen`).
- There is no re-probe or retry when a slug write conflicts.
- A failed assembly is not rolled back. The course shell stays with
  `modules = []`. The modules built so far stay, and so do the lessons
  created so far, including those of the module the loop stopped at.
  `getCourseById` then finds the modules with `Module.find`.
- Per-lesson provider failures degrade to `[]` and `null`. A lesson
  that fails validation in `Lesson.create` is not isolated: its
  rejection escapes to the outer `catch`, and the whole request answers
  500.

## Model

| member | source | states |
|---|---|---|
| Text.LowerChar | server/controllers/courseController.js:13 | lower-casing changes only 'A'..'Z', leaves no upper-case letter and keeps whitespace whitespace |
| Text.Lower | client/src/pages/Dashboard.jsx:286-288 | `toLowerCase` keeps the length, leaves no upper-case letter and keeps every other character where it was |
| Text.LowerNoUpper | server/controllers/courseController.js:13 | a string without upper-case letters is its own lower-case form |
| Text.LowerIdempotent | client/src/pages/Dashboard.jsx:286-288 | lower-casing twice is lower-casing once |
| Text.TrimEdges | server/models/Lesson.js:5-9 | `trim()` leaves no whitespace at either end and returns a contiguous slice of its input |
| Text.TrimKeeps | server/models/Course.js:12-16 | a string with no whitespace at its ends is left as it is by `trim()` |
| Text.TrimLeadingSpace | client/src/pages/EditCourse.jsx:45 | leading whitespace does not survive `trim()` |
| Text.SliceAtShift | client/src/pages/Dashboard.jsx:286 | an occurrence at index i is an occurrence at i - 1 in the tail |
| Text.ContainsIffSlice | client/src/pages/Dashboard.jsx:286-288 | `includes` holds exactly when some contiguous slice equals the term |
| Text.ContainsEmpty | client/src/pages/Dashboard.jsx:285-289 | every string includes the empty term |
| Text.DigitChar | server/controllers/courseController.js:62 | each digit renders as a decimal digit character |
| Text.NatToString | server/controllers/courseController.js:62 | `${suffix}` is a non-empty string of decimal digits |
| Text.ParseNatToString | server/controllers/courseController.js:62 | the decimal rendering reads back as the same number |
| Text.NatToStringInjective | server/controllers/courseController.js:62 | different suffixes render differently |
| Seqs.IsSubsequenceRefl | client/src/pages/Course.jsx:126 | a module left alone keeps its lesson list as a subsequence of itself |
| Seqs.Filter | client/src/pages/Dashboard.jsx:268 | `filter` never lengthens the list |
| Seqs.FilterCounts | client/src/pages/Dashboard.jsx:268 | `filter` keeps each passing element as often as it occurs and drops the others |
| Seqs.FilterMembers | client/src/pages/Dashboard.jsx:268 | an element survives `filter` exactly when it occurs and passes |
| Seqs.FilterIsSubsequence | client/src/pages/Dashboard.jsx:285 | `filter` deletes elements and never reorders the rest |
| Seqs.FilterAllKept | client/src/pages/Dashboard.jsx:285-289 | a test every element passes changes nothing |
| Seqs.FilterNoneKept | server/controllers/courseController.js:15 | a test no element passes leaves nothing |
| Seqs.SubsequenceLength | client/src/pages/Course.jsx:125 | a subsequence is never longer than its source |
| Seqs.FilterLength | client/src/pages/Course.jsx:125 | `filter` keeps the length exactly when every element passes |
| Seqs.FilterAgree | client/src/pages/Dashboard.jsx:285-289 | two tests that agree on every element filter alike |
| Slug.DropRun | server/controllers/courseController.js:16-17 | dropping a leading run leaves a suffix that starts outside the class, shorter when the run was non-empty |
| Slug.ReplaceRuns | server/controllers/courseController.js:16-17 | `replace(/<class>+/g, sep)` is empty exactly on empty input and starts with `sep` exactly when the input starts in the class |
| Slug.ReplaceRunsChars | server/controllers/courseController.js:16-17 | every character after the replace is the separator or an input character outside the class |
| Slug.ReplaceAbsentRuns | server/controllers/courseController.js:16 | replacing runs of a class that does not occur changes nothing |
| Slug.CollapsedHyphens | server/controllers/courseController.js:17 | after `replace(/-+/g, '-')` no two hyphens are adjacent |
| Slug.CollapseKeeps | server/controllers/courseController.js:17 | a string without `--` is left as it is by `replace(/-+/g, '-')` |
| Slug.Stripped | server/controllers/courseController.js:13-15 | after lower-casing, trimming and stripping, only `[a-z0-9\s-]` remains |
| Slug.CollapseHyphens | server/controllers/courseController.js:17 | the collapsed string has no `--` |
| Slug.Slugify | server/controllers/courseController.js:10-18 | `slugify` output contains only `[a-z0-9-]` and never `--` |
| Slug.SlugifyKeepsSlug | server/controllers/courseController.js:10-18 | a slug goes through every stage of `slugify` unchanged |
| Slug.SlugifyFixedPoint | server/controllers/courseController.js:10-18 | the strings `slugify` leaves unchanged are exactly the slugs (both directions) |
| Slug.SlugifyIdempotent | server/controllers/courseController.js:10-18 | `slugify(slugify(s)) == slugify(s)` |
| Slug.BaseSlug | server/controllers/courseController.js:53-54 | the base slug is never empty (`'course'` fallback) and is a slug |
| Slug.CandidateInjective | server/controllers/courseController.js:58-63 | the probe never tries the same slug twice |
| Slug.CandidateShaped | server/controllers/courseController.js:53-62 | every candidate of a slug-shaped base is non-empty and only `[a-z0-9-]` |
| Slug.SlugShapedIsTrimmed | server/models/Course.js:15 | a slug-shaped string is unchanged by the schema's `trim` |
| SlugExamples.SlugifyKeepsEdgeHyphen | server/controllers/courseController.js:14-15 | `slugify(" a ! ")` is `"a-"`: trimming before stripping can leave an edge hyphen |
| SlugExamples.SlugifyMayBeEmpty | server/controllers/courseController.js:10-18 | a title with no letter, digit, space or hyphen slugifies to `""` |
| SlugExamples.SuffixedCandidateMayDoubleHyphen | server/controllers/courseController.js:62 | a base ending in `-` gives suffixed candidates that contain `--` |
| Models.ListBlockRejected | server/models/Lesson.js:14-19 | a list block that carries `items` and no `content` makes the lesson fail validation |
| Db.Overwrite | server/controllers/courseController.js:112 | saving a course again replaces the record inserted under that id |
| Db.PlacedStep | server/controllers/courseController.js:98-104 | one more `Lesson.create` stores the next record under the next id |
| Db.PlacedFacts | server/controllers/courseController.js:98-104 | creating records under fresh ids keeps every old record, stores `vs[i]` under `from + i` and adds nothing else |
| Db.PlacedAt | server/controllers/courseController.js:98-106 | record k of those created is stored under `from + k` |
| Db.PlacedAll | server/controllers/courseController.js:98-106 | every created record is stored under its consecutive id |
| Db.ConsecutiveAt | server/controllers/courseController.js:106 | the pushed lesson ids are `from`, `from + 1`, ... in order |
| Db.Store.constructor | server/models/Course.js:29 | an empty store satisfies the invariant (unique (creator, slug), valid records) |
| Db.Store.InsertCourse | server/controllers/courseController.js:65-71 | `Course.create` of a valid record with a free slug takes the next id and keeps the index unique |
| Db.Store.SaveCourse | server/controllers/courseController.js:112 | saving a course with its creator and slug unchanged replaces only that record |
| Db.Store.Commit | server/controllers/courseController.js:73-110 | the assembled modules, lessons and id counter are written back; courses are untouched |
| Db.Store.DeleteLessonsOf | server/controllers/courseController.js:185 | `Lesson.deleteMany({ course })` leaves exactly the lessons of other courses |
| Db.Store.DeleteModulesOf | server/controllers/courseController.js:186 | `Module.deleteMany({ course })` leaves exactly the modules of other courses |
| Db.Store.DeleteCourseRow | server/controllers/courseController.js:187 | `findByIdAndDelete` removes that course only |
| Db.Store.SaveLesson | server/controllers/lessonController.js:30 | saving a valid lesson replaces only that lesson |
| Db.Store.PullLesson | server/controllers/lessonController.js:92-95 | `$pull` rewrites only that module's lesson list |
| Db.Store.DeleteLessonRow | server/controllers/lessonController.js:96 | `deleteOne` removes that lesson only |
| Db.AddKeepsUnique | server/models/Course.js:29 | adding a course whose slug its creator does not use keeps (creator, slug) unique |
| Db.ReplaceKeepsUnique | server/models/Course.js:29 | rewriting a course with creator and slug unchanged keeps the index unique |
| Db.LessonViews | server/controllers/courseController.js:123-129 | `populate` of lesson refs yields stored lessons named by the refs, never more than the refs |
| Db.LessonViewsAll | server/controllers/courseController.js:123-129 | when every lesson ref resolves, `populate` yields them all, in list order |
| Db.ModuleViews | server/controllers/courseController.js:123-129 | `populate` of module refs yields stored modules named by the refs, each with its own lesson refs populated |
| Db.ModuleViewsAll | server/controllers/courseController.js:123-129 | when every module ref resolves, `populate` yields them all, in list order |
| Db.ModulesOfFinds | server/controllers/courseController.js:137 | `Module.find({ course })` finds every module of the course and nothing else |
| Db.ModulesOfIncreasing | server/controllers/courseController.js:137 | the model's order for `Module.find({ course })`, which has no `sort`, is increasing id |
| Db.IncreasingLast | server/controllers/courseController.js:137 | in an increasing id list the largest id is the last |
| Db.AdjacentIncreasing | server/controllers/courseController.js:79 | ids pushed in increasing steps are increasing |
| Db.ModulesOfExactly | server/controllers/courseController.js:137 | when the course's modules are exactly an increasing list, the lookup returns that list in the model's id order |
| CourseAssembly.FaultIsolation | server/controllers/courseController.js:82-104 | a failed content call leaves `content = []`, a failed video call leaves `null`; the lesson keeps its trimmed title, both refs and the defaults |
| CourseAssembly.BlocksCompleteIff | server/models/Lesson.js:14-19 | the recursive block check is "every block has a `type` and a `content`" |
| CourseAssembly.CreatableIff | server/models/Lesson.js:5-19 | `Lesson.create` accepts the planned lesson exactly when its trimmed title is not blank and its blocks are complete |
| CourseAssembly.AcceptedFrom | server/controllers/courseController.js:81-107 | the lesson loop creates between i and all of the remaining lessons |
| CourseAssembly.AcceptedFromStops | server/controllers/courseController.js:81-107 | the loop creates exactly the leading valid lessons and stops at the first invalid one |
| CourseAssembly.CreatedStops | server/controllers/courseController.js:81-107 | in outline terms: the entries before the stop are creatable, the one it stops at is not, and the module is completed exactly when all are creatable |
| CourseAssembly.CompleteIff | server/controllers/courseController.js:81-109 | the lesson loop gets through a module exactly when every entry is creatable |
| CourseAssembly.PlacedValid | server/models/Lesson.js:5-19 | creating only accepted lessons keeps every stored lesson valid |
| CourseAssembly.CreateLessons | server/controllers/courseController.js:81-107 | the lesson loop creates the accepted prefix of the plan under consecutive ids and pushes exactly those ids |
| CourseAssembly.BuildModule | server/controllers/courseController.js:74-109 | `Module.create`, the lesson loop and `module.save()` give `BuiltTables`; the module lists its lessons only when all were created |
| CourseAssembly.AssembleModules | server/controllers/courseController.js:73-110 | the module loop pushes each module id right after `Module.create` and aborts at the first rejected lesson, giving `AssembleFrom` |
| CourseAssembly.BuiltValid | server/controllers/courseController.js:74-109 | building one module keeps the collections valid, keeps every earlier record and advances the counter |
| CourseAssembly.AssembleValid | server/controllers/courseController.js:73-110 | the assembly keeps the collections valid, only adds records and only advances the counter |
| CourseAssembly.ModulesCompleteIff | server/controllers/courseController.js:73-110 | the recursive completeness check is "every module from i on is complete" |
| CourseAssembly.LessonPlansComplete | server/controllers/courseController.js:81-107 | the plans of `createCourse` complete a module, under any id, exactly when all its entries are creatable |
| CourseAssembly.AssembleOk | server/controllers/courseController.js:73-112 | the assembly succeeds exactly when every module from i on is complete |
| CourseAssembly.AssembleIds | server/controllers/courseController.js:79 | ids are pushed after those already pushed: one per module on success, fewer on failure |
| CourseAssembly.AssembleStop | server/controllers/courseController.js:73-110 | on failure the last module pushed is an incomplete one |
| CourseAssembly.AssembleStopFirst | server/controllers/courseController.js:73-110 | every module pushed before the last one of a failed assembly is complete |
| CourseAssembly.BuiltStores | server/controllers/courseController.js:74-109 | a complete module is stored with its title, its course and its lesson ids, and each lesson under its id |
| CourseAssembly.BuiltShell | server/controllers/courseController.js:74-77 | an incomplete module is stored with no lessons listed |
| CourseAssembly.BuiltKept | server/controllers/courseController.js:73-110 | later modules do not disturb a built module |
| CourseAssembly.AssembleStores | server/controllers/courseController.js:73-110 | each module the loop got through is stored, built in full, under the id pushed for it |
| CourseAssembly.AssembleShell | server/controllers/courseController.js:73-110 | on failure the last module pushed is stored with its title and no lessons |
| CourseAssembly.AssembleHead | server/controllers/courseController.js:74-79 | the module created next gets the next id, is pushed next and belongs to the course |
| CourseAssembly.AssembleFresh | server/controllers/courseController.js:74-79 | pushed ids are fresh and increasing, and each names a stored module of the course |
| CourseAssembly.AssembleNew | server/controllers/courseController.js:74-79 | every module the assembly adds was pushed |
| CourseAssembly.BuiltLessonFrom | server/controllers/courseController.js:98-104 | a lesson that building a module adds is the planned lesson for its position |
| CourseAssembly.LessonPlansFor | server/controllers/courseController.js:98-104 | every planned lesson refers to the course |
| CourseAssembly.AssembleLessonsOf | server/controllers/courseController.js:98-104 | every lesson the assembly adds refers to the course |
| CourseController.FirstFreeUnique | server/controllers/courseController.js:55-63 | the least free candidate is unique |
| CourseController.AllocateSlug | server/controllers/courseController.js:55-63 | the probe returns `base` if it is free, else `base-k` for the least free k >= 2; every earlier candidate is taken |
| CourseController.FindOne | server/controllers/courseController.js:35-43 | `findOne` returns a matching course, or none when no course matches |
| CourseController.ExistingIff | server/controllers/courseController.js:33-47 | dedup fires exactly when the topic slug is non-empty and the creator has a course with that slug or with the topic as title up to case; it returns such a course |
| CourseController.CreateCourse | server/controllers/courseController.js:20-119 | 400, 401, dedup 200 and outline failure leave the store unchanged; the slug is the least free candidate; an invalid shell is 500 with nothing written; otherwise the course is inserted and lists its module ids only when the assembly got through (201 or 500) |
| CourseController.BuildCourse | server/controllers/courseController.js:65-112 | `Course.create`, the module loop and `course.save()`: the course takes the next id, the collections are the assembly's, and `modules` is set only on success |
| CourseController.GetCourseById | server/controllers/courseController.js:121-149 | 404 exactly when the course is missing; otherwise the stored course itself, with no ownership check |
| CourseController.DeleteCourse | server/controllers/courseController.js:165-202 | 404, 401 and a failed transaction change nothing; otherwise the course, its modules and its lessons go together |
| CourseController.CascadeModulesOf | server/controllers/courseController.js:185-187 | after the cascade `Module.find` finds nothing for the course and the same as before for any other course |
| CourseController.CascadeUndoesAssembly | server/controllers/courseController.js:73-110 | deleting a just-assembled course removes everything its assembly added and nothing else |
| CourseController.Edited | server/controllers/courseController.js:222-224 | a truthy title or description replaces the stored one and "" keeps it; any tags array replaces them; slug, creator and modules stay |
| CourseController.EditedIdempotent | server/controllers/courseController.js:222-224 | applying the same edit twice is applying it once |
| CourseController.EmptyEditKeeps | server/controllers/courseController.js:222-224 | an edit with every field falsy or missing changes nothing |
| CourseController.UpdateCourse | server/controllers/courseController.js:204-233 | 404 and 401 change nothing; an owner's edit replaces only that course and keeps the index unique |
| CreatedCourse.AssembledIncreasing | server/controllers/courseController.js:73-79 | the module ids a course lists are increasing: outline order is creation order |
| CreatedCourse.AssembledOutcome | server/controllers/courseController.js:73-118 | the assembly succeeds exactly when every entry of every module is creatable, and then pushes one id per module; on failure it stops at the first incomplete module, whose id is the last pushed |
| CreatedCourse.AssembledModulesOf | server/controllers/courseController.js:136-142 | after the assembly, `Module.find({ course })` finds exactly the pushed ids; in the model's id order that is push order |
| CreatedCourse.CreatedView | server/controllers/courseController.js:121-142 | whether the assembly got through or not, `getCourseById` shows exactly the pushed modules; on the fallback path they are in push order only under the model's id order for `Module.find` |
| CreatedCourse.BuiltView | server/controllers/courseController.js:123-129 | a built module populates to its planned lessons, in plan order |
| CreatedCourse.CreatedModule | server/controllers/courseController.js:73-110 | module q of that view has the outline title and either exactly its planned lessons (entry title, replies, both refs) or, for the module a failure stopped at, none |
| LessonController.Hydrated | server/controllers/lessonController.js:26-29 | hydration replaces the content and replaces the video id only with a truthy one; every other field stays |
| LessonController.HydratedValidIff | server/controllers/lessonController.js:26-30 | the save after hydration passes exactly when every generated block is complete |
| LessonController.GetLessonById | server/controllers/lessonController.js:9-38 | 404 for a missing lesson; a lesson with content is returned as stored; an empty one is hydrated and saved, or 500 with nothing saved when generation throws or the save is rejected |
| LessonController.EditedLesson | server/controllers/lessonController.js:58-59 | a truthy title replaces the stored one (trimmed) and "" keeps it; any content array replaces the blocks; refs and other fields stay |
| LessonController.TrimIdempotent | server/models/Lesson.js:5-9 | trimming a trimmed title changes nothing |
| LessonController.EditedLessonIdempotent | server/controllers/lessonController.js:58-59 | applying the same lesson edit twice is applying it once |
| LessonController.EditedLessonValidIff | server/controllers/lessonController.js:58-61 | the save after an edit passes exactly when a supplied title is not blank and supplied blocks are complete |
| LessonController.BlankTitleRejected | server/controllers/lessonController.js:58-61 | a whitespace-only title is truthy, is trimmed to "" and makes the save fail |
| LessonController.UpdateLesson | server/controllers/lessonController.js:40-68 | 404 for a missing lesson or parent course and 401 for a non-owner change nothing; an invalid edit is 500 and nothing is saved; otherwise only that lesson is replaced |
| LessonController.PulledExact | server/controllers/lessonController.js:92-95 | `$pull` removes every occurrence of the id from that module's list, keeps the rest in order, and leaves other fields and modules alone |
| LessonController.DeleteLesson | server/controllers/lessonController.js:70-108 | 404, 404, 401 and a failed transaction change nothing; otherwise the id is pulled from its module and the lesson row is deleted |
| CoursePage.Toggled | client/src/pages/Course.jsx:145-155 | the toggled id flips membership; no other id changes |
| CoursePage.ToggleTwice | client/src/pages/Course.jsx:145-155 | toggling the same id twice restores the set |
| CoursePage.AfterLessonDeleteExact | client/src/pages/Course.jsx:121-128 | only the matching module loses lessons, exactly those with the id; the rest keep their order; other modules are unchanged |
| CoursePage.TotalLessonsAppend | client/src/pages/Course.jsx:209 | the lesson count of two module lists is the sum of their counts |
| CoursePage.AfterLessonDeleteTotal | client/src/pages/Course.jsx:121-128 | a delete never raises the lesson count, and lowers it exactly when the module listed the lesson |
| CoursePage.CoursePage.constructor | client/src/pages/Course.jsx:106-113 | the page starts with the loaded course, no completed lessons and no error |
| CoursePage.CoursePage.ToggleLessonCompletion | client/src/pages/Course.jsx:145-155 | the completed set becomes the toggled set; course and error stay |
| CoursePage.CoursePage.HandleDeleteLesson | client/src/pages/Course.jsx:115-135 | a successful delete prunes the lesson from its module; a failed one keeps the course and sets the error |
| Dashboard.FilteredExact | client/src/pages/Dashboard.jsx:285-289 | a course is shown exactly when it is listed and the term occurs, ignoring case, in its title, description or a tag; the shown list keeps order |
| Dashboard.EmptyTermShowsAll | client/src/pages/Dashboard.jsx:285-289 | an empty search shows every course, in order |
| Dashboard.FilterIgnoresCase | client/src/pages/Dashboard.jsx:285-289 | the filter ignores the case of the search term |
| Dashboard.HandleDeleteExact | client/src/pages/Dashboard.jsx:261-275 | a successful delete removes exactly the courses with that id and keeps the rest in order; a failed one keeps the list and sets the error |
| Dashboard.TagChips | client/src/pages/Dashboard.jsx:216-228 | a card shows the first min(3, n) tags, and "+(n - 3) more" exactly when n > 3 |
| EditCourse.Split | client/src/pages/EditCourse.jsx:45 | `split(',')` always returns at least one piece |
| EditCourse.SplitCount | client/src/pages/EditCourse.jsx:45 | `split(',')` returns one more piece than there are commas |
| EditCourse.SplitNoComma | client/src/pages/EditCourse.jsx:45 | a string with no comma splits into itself |
| EditCourse.SplitAfter | client/src/pages/EditCourse.jsx:45 | a comma-free prefix before a comma is the first piece |
| EditCourse.SplitCons | client/src/pages/EditCourse.jsx:45 | a leading non-comma character joins the first piece |
| EditCourse.SavedTagCount | client/src/pages/EditCourse.jsx:45 | the form sends one tag more than it holds commas, so an empty field sends `[""]` |
| EditCourse.SplitJoin | client/src/pages/EditCourse.jsx:21-45 | splitting the joined tags gives the first tag, then each later tag behind one space |
| EditCourse.TrimPieces | client/src/pages/EditCourse.jsx:45 | trimming those pieces gives back plain tags |
| EditCourse.LoadSaveTags | client/src/pages/EditCourse.jsx:21-45 | saving the loaded string returns the original tags when there is at least one and none has a comma or surrounding whitespace |
| EditCourse.SaveUnchangedForm | client/src/pages/EditCourse.jsx:38-55 | submitting the form as loaded leaves such a course as it was; a course with no tags comes back with the tag `""` |

## Left out

- Network, routing, authentication middleware, JWT/OAuth and CORS are not modelled. The requester is the `sub` of the user record, or `None` when `User.findById` finds no user.
- `getCourseById` has no ownership check, and the model has none either (server/routes/courseRoutes.js:16).
- The stub `DELETE` route registered before the real one (server/routes/lessonRoutes.js:6) makes `deleteLesson` unreachable as wired. The model gives the controller's own behaviour.
- `getUserCourses` (server/controllers/courseController.js:151-163) is not modelled: it is a query sorted by `createdAt` timestamps. The dashboard takes its list as an input.
- The outline generator, the content generator and the video finder (geminiService.js, youtubeService.js) are outcome inputs. Their prompts, JSON parsing and code-fence stripping are not modelled.
- `Promise.all` in `getLessonById` is modelled as two outcomes known together. Concurrency between requests, such as two creates probing the same slug, is not modelled: every request runs alone.
- Mongo sessions are all-or-nothing transitions chosen by `txFails`. The model does not say which step threw.
- `findOne` returns the matching course inserted first. Mongo gives no such order guarantee; any match would do for the properties stated.
- The escaped `^topic$` regex with flag `i` is modelled as whole-string equality up to ASCII case. PCRE's `$` also matches before a final newline, which is not modelled.
- `toLowerCase`, `trim` and `\s` are modelled over ASCII only. Unicode case mapping and Unicode whitespace are not modelled.
- server/models/Module.js is not part of this model. The Module record (title, course, lessons) follows how the controllers create, save and query it.
- Modules and lessons are built on values and written back once by `Db.Store.Commit`. No reader can observe the store between two `create` calls, so interleaving with other requests is not modelled.
- A rejected `Course.create` (a required field empty) is the only shell failure modelled. Unique-index enforcement cannot fail, because the probe has chosen a free slug.
- Lessons without a `course` ref are not removed by the `deleteCourse` cascade, and the model keeps that behaviour (`Lesson.deleteMany({ course })`).
- The client keeps ids of deleted lessons in `completedLessons`. The model keeps them too, since nothing in Course.jsx prunes them.
- `progressPercentage` and `Math.round` in Course.jsx are floating point and are not modelled. Neither is `isDeleting`, the delete modals, or any rendering.
- client/src/utils/pdfGenerator.js, Lesson.jsx rendering, EditLesson, Navbar, Auth, Home and App are not modelled.
- Timestamps (`createdAt`, `updatedAt`) are not modelled.
- Db.ModulesOf: `Module.find({ course })` has no `sort`, so the database promises no order. The model lists the modules by increasing id, its own choice.
- ModulesOfIncreasing: states the model's id order for `Module.find`, not an order the database guarantees.
- ModulesOfExactly: the returned list equals the given list only under the model's id order; the database guarantees the same members, not their order.
- AssembledModulesOf: "in push order" holds under the model's id order for `Module.find`; the database guarantees only that exactly the pushed modules are found.
- CreatedView: on the fallback path the modules appear in push order only under the model's id order for `Module.find`; which modules appear and what they hold does not depend on it.
- The outline is assumed to have the shape the prompt asks for. An outline whose `modules` or `lessons` is missing or not an array, or that holds a `null` entry, throws a TypeError after `Course.create` (server/controllers/courseController.js:73, 81, 82) and answers 500 with the shell and the records built so far left in place. The typed outline cannot express this, so `CreateCourse` does not cover it.
- Ids are assumed to be well-formed ObjectIds. A malformed id makes `findById` throw a CastError, answered with 500 by the `catch` (server/controllers/courseController.js:123, 167, 207; server/controllers/lessonController.js:11, 43, 74). With natural-number ids the model only has the 404 path.
- The topic is assumed to be a string. A truthy non-string topic gets through `slugify`, which calls `toString()`, and then throws at `topic.replace` (server/controllers/courseController.js:42), answering 500.
