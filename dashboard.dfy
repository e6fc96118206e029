/**
 * client/src/pages/Dashboard.jsx: the search filter over the creator's
 * courses, the list update after a course delete, and the tag chips of a
 * course card.
 */
module Dashboard {
  import opened Text
  import opened Seqs
  import opened Models

  /** A course as `/api/courses/my-courses` lists it. */
  datatype Listed = Listed(id: Id, course: Course)

  /** `field.toLowerCase().includes(searchTerm.toLowerCase())`. */
  predicate Hit(field: string, term: string) {
    Contains(Lower(field), Lower(term))
  }

  /** `course.tags.some(tag => tag.toLowerCase().includes(...))`. */
  predicate AnyTag(tags: seq<string>, term: string) {
    exists i :: 0 <= i < |tags| && Hit(tags[i], term)
  }

  /** The search term occurs, ignoring case, in the title, the description or some tag. */
  predicate Shown(c: Listed, term: string) {
    Hit(c.course.title, term) || Hit(c.course.description, term) || AnyTag(c.course.tags, term)
  }

  /** `filteredCourses`. */
  function FilteredCourses(courses: seq<Listed>, term: string): seq<Listed> {
    Filter(courses, (c: Listed) => Shown(c, term))
  }

  /**
   * A course is shown exactly when it is listed and matches the term, and
   * the shown courses keep the list's order.
   */
  lemma FilteredExact(courses: seq<Listed>, term: string)
    ensures forall c :: c in FilteredCourses(courses, term) <==> c in courses && Shown(c, term)
    ensures IsSubsequence(FilteredCourses(courses, term), courses)
  {
    FilterMembers(courses, (c: Listed) => Shown(c, term));
    FilterIsSubsequence(courses, (c: Listed) => Shown(c, term));
  }

  /** An empty search shows every course, in order. */
  lemma EmptyTermShowsAll(courses: seq<Listed>)
    ensures FilteredCourses(courses, "") == courses
  {
    forall i | 0 <= i < |courses|
      ensures Shown(courses[i], "")
    {
      ContainsEmpty(Lower(courses[i].course.title));
    }
    FilterAllKept(courses, (c: Listed) => Shown(c, ""));
  }

  /** The filter ignores the case of the search term. */
  lemma FilterIgnoresCase(courses: seq<Listed>, term: string)
    ensures FilteredCourses(courses, Lower(term)) == FilteredCourses(courses, term)
  {
    LowerIdempotent(term);
    FilterAgree(courses, (c: Listed) => Shown(c, Lower(term)), (c: Listed) => Shown(c, term));
  }

  /** The dashboard's course list and error message. */
  datatype DashboardState = DashboardState(courses: seq<Listed>, error: string)

  /**
   * `handleDelete` once the delete request settled (`deleted`: it
   * succeeded): the error is cleared, then the course leaves the list or
   * the error is set.
   */
  function HandleDelete(st: DashboardState, courseId: Id, deleted: bool): DashboardState {
    var cleared := st.(error := "");
    if deleted then cleared.(courses := Filter(st.courses, (c: Listed) => c.id != courseId))
    else cleared.(error := "Failed to delete the course. Please try again.")
  }

  /**
   * A successful delete removes exactly the listed courses with that id
   * and keeps the rest in order; a failed one keeps the list and sets the
   * error.
   */
  lemma HandleDeleteExact(st: DashboardState, courseId: Id, deleted: bool)
    ensures deleted ==> HandleDelete(st, courseId, deleted).error == ""
    ensures deleted ==> forall c :: c in HandleDelete(st, courseId, deleted).courses <==> c in st.courses && c.id != courseId
    ensures deleted ==> IsSubsequence(HandleDelete(st, courseId, deleted).courses, st.courses)
    ensures !deleted ==> HandleDelete(st, courseId, deleted) == DashboardState(st.courses, "Failed to delete the course. Please try again.")
  {
    FilterMembers(st.courses, (c: Listed) => c.id != courseId);
    FilterIsSubsequence(st.courses, (c: Listed) => c.id != courseId);
  }

  /** A card's tag chips: the tags shown, and the count behind "+n more" when that chip is shown. */
  datatype Chips = Chips(shown: seq<string>, more: Option<nat>)

  /** `tags.slice(0, 3)` and, when `tags.length > 3`, `+{tags.length - 3} more`. */
  function TagChips(tags: seq<string>): (r: Chips)
    ensures r.shown <= tags && |r.shown| == (if |tags| < 3 then |tags| else 3)
    ensures r.more.Some? <==> |tags| > 3
    ensures |r.shown| + (if r.more.Some? then r.more.value else 0) == |tags|
  {
    Chips(if |tags| <= 3 then tags else tags[..3], if |tags| > 3 then Some(|tags| - 3) else None)
  }
}
