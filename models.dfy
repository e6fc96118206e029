/**
 * The persisted records: server/models/Course.js, server/models/Lesson.js and
 * the Module record both of them reference, plus the outcomes and error
 * responses the controllers deal in.
 */
module Models {
  import opened Text

  /** A document id (Mongo's ObjectId): opaque, compared for equality only. */
  type Id = nat

  datatype Option<T> = None | Some(value: T)

  /** What a call into an external provider did: it returned a value or it threw. */
  datatype Outcome<T> = Returned(value: T) | Threw

  /** The error responses the controllers send. */
  datatype Failure = BadRequest | Unauthorized | NotFound | ServerError

  function StatusCode(f: Failure): nat {
    match f
    case BadRequest => 400
    case Unauthorized => 401
    case NotFound => 404
    case ServerError => 500
  }

  datatype Result<T> = Ok(value: T) | Err(failure: Failure)

  /**
   * A content block as the lesson generator returns it. An empty string
   * stands for a field the generator left out; `items` is what a list block
   * carries instead of `content`.
   */
  datatype RawBlock = RawBlock(kind: string, content: string, items: seq<string>)

  /** A content block as Lesson.js stores it: `type` and `content`, nothing else. */
  datatype Block = Block(kind: string, content: string)

  /** The schema cast: fields the schema does not declare are dropped. */
  function CastBlocks(bs: seq<RawBlock>): (r: seq<Block>)
    ensures |r| == |bs|
    ensures forall i :: 0 <= i < |bs| ==> r[i] == Block(bs[i].kind, bs[i].content)
  {
    seq(|bs|, i requires 0 <= i < |bs| => Block(bs[i].kind, bs[i].content))
  }

  /** Both fields of a block are required strings, and `required` rejects "". */
  predicate BlockValid(b: Block) {
    b.kind != "" && b.content != ""
  }

  /** Course.js: `slug` and `creator` (a Google sub) are plain strings. */
  datatype Course = Course(
    title: string,
    description: string,
    slug: string,
    creator: string,
    modules: seq<Id>,
    tags: seq<string>)

  /** The Module record, as the controllers create, save and query it. */
  datatype Module = Module(title: string, courseId: Id, lessons: seq<Id>)

  /** Lesson.js: the `module` reference is required, the `course` one optional. */
  datatype Lesson = Lesson(
    title: string,
    objectives: seq<string>,
    content: seq<Block>,
    isCompleted: bool,
    youtubeVideoId: Option<string>,
    moduleId: Id,
    courseId: Option<Id>)

  /** What `Course.create` stores: `slug` is trimmed and `modules` starts empty. */
  function NewCourse(title: string, description: string, tags: seq<string>, creator: string, slug: string): Course {
    Course(title, description, Trim(slug), creator, [], tags)
  }

  /** Course.js's `required` fields, which reject a missing or empty string. */
  predicate CourseValid(c: Course) {
    c.title != "" && c.description != "" && c.slug != "" && c.creator != ""
  }

  /**
   * What `Lesson.create` stores: the title trimmed, the blocks cast to the
   * schema, `objectives` defaulting to [] and `isCompleted` to false.
   */
  function NewLesson(title: string, content: seq<RawBlock>, video: Option<string>, moduleId: Id, courseId: Option<Id>): Lesson {
    Lesson(Trim(title), [], CastBlocks(content), false, video, moduleId, courseId)
  }

  /** Lesson.js's validation: a non-empty trimmed title and well-formed blocks. */
  predicate LessonValid(l: Lesson) {
    l.title != "" && forall i :: 0 <= i < |l.content| ==> BlockValid(l.content[i])
  }

  /**
   * The schema has no `items`: a list block that carries its entries in
   * `items` and has no `content` makes the whole lesson fail validation.
   */
  lemma ListBlockRejected(title: string, content: seq<RawBlock>, i: nat, video: Option<string>, moduleId: Id, courseId: Option<Id>)
    requires i < |content| && content[i].content == "" && content[i].items != []
    ensures !LessonValid(NewLesson(title, content, video, moduleId, courseId))
  {
    assert NewLesson(title, content, video, moduleId, courseId).content[i].content == "";
  }

  /** A lesson as the client receives it after `populate`. */
  datatype LessonView = LessonView(id: Id, lesson: Lesson)

  datatype ModuleView = ModuleView(id: Id, title: string, lessons: seq<LessonView>)

  datatype CourseView = CourseView(id: Id, course: Course, modules: seq<ModuleView>)
}
