/**
 * client/src/pages/EditCourse.jsx: the form is loaded with the tags
 * joined by ", " and saved with the field split on ',' and each piece
 * trimmed; the request body then goes through `updateCourse`.
 */
module EditCourse {
  import opened Text
  import opened Models
  import opened CourseController

  /** `tags.join(', ')`. */
  function JoinTags(tags: seq<string>): string {
    if tags == [] then ""
    else if |tags| == 1 then tags[0]
    else tags[0] + ", " + JoinTags(tags[1..])
  }

  /** `s.split(',')`: the pieces between the commas, in order. */
  function Split(s: string): (r: seq<string>)
    ensures |r| >= 1
  {
    if s == [] then [""]
    else if s[0] == ',' then [""] + Split(s[1..])
    else var rest := Split(s[1..]); [[s[0]] + rest[0]] + rest[1..]
  }

  /** The number of commas in `s`. */
  function Commas(s: string): nat {
    if s == [] then 0 else (if s[0] == ',' then 1 else 0) + Commas(s[1..])
  }

  /** `split(',')` returns one more piece than there are commas. */
  lemma {:induction false} SplitCount(s: string)
    ensures |Split(s)| == Commas(s) + 1
  {
    if s != [] {
      SplitCount(s[1..]);
    }
  }

  /** A string with no comma splits into itself alone. */
  lemma {:induction false} SplitNoComma(a: string)
    requires ',' !in a
    ensures Split(a) == [a]
  {
    if a != [] {
      SplitNoComma(a[1..]);
      assert [a[0]] + a[1..] == a;
    }
  }

  /** A comma-free prefix followed by a comma is the first piece. */
  lemma {:induction false} SplitAfter(a: string, b: string)
    requires ',' !in a
    ensures Split(a + "," + b) == [a] + Split(b)
  {
    if a == [] {
      assert a + "," + b == [','] + b;
      assert (a + "," + b)[1..] == b;
    } else {
      assert (a + "," + b)[1..] == a[1..] + "," + b;
      SplitAfter(a[1..], b);
      assert [a[0]] + a[1..] == a;
    }
  }

  /** A leading character other than a comma joins the first piece. */
  lemma SplitCons(c: char, s: string)
    requires c != ','
    ensures Split([c] + s) == [[c] + Split(s)[0]] + Split(s)[1..]
  {
    assert ([c] + s)[1..] == s;
  }

  /** `.map(tag => tag.trim())`. */
  function TrimAll(pieces: seq<string>): (r: seq<string>)
    ensures |r| == |pieces|
    ensures forall i :: 0 <= i < |pieces| ==> r[i] == Trim(pieces[i])
  {
    seq(|pieces|, i requires 0 <= i < |pieces| => Trim(pieces[i]))
  }

  /** The tags the form sends: `formData.tags.split(',').map(tag => tag.trim())`. */
  function SaveTags(s: string): seq<string> {
    TrimAll(Split(s))
  }

  /** The form always sends one tag more than it holds commas: an empty field sends `[""]`. */
  lemma SavedTagCount(s: string)
    ensures |SaveTags(s)| == Commas(s) + 1
    ensures s == "" ==> SaveTags(s) == [""]
  {
    SplitCount(s);
  }

  /** A tag the round trip preserves: no comma in it and no whitespace around it. */
  predicate Plain(t: string) {
    ',' !in t && Trim(t) == t
  }

  /** The pieces of the joined tags: the first tag, then each later tag behind the space of ", ". */
  lemma {:induction false} SplitJoin(tags: seq<string>)
    requires tags != [] && forall i :: 0 <= i < |tags| ==> ',' !in tags[i]
    ensures |Split(JoinTags(tags))| == |tags|
    ensures Split(JoinTags(tags))[0] == tags[0]
    ensures forall i :: 1 <= i < |tags| ==> Split(JoinTags(tags))[i] == " " + tags[i]
  {
    if |tags| == 1 {
      SplitNoComma(tags[0]);
    } else {
      var rest := tags[1..];
      SplitJoin(rest);
      var j := JoinTags(rest);
      assert JoinTags(tags) == tags[0] + "," + ([' '] + j);
      SplitAfter(tags[0], [' '] + j);
      SplitCons(' ', j);
      forall i | 1 <= i < |tags|
        ensures Split(JoinTags(tags))[i] == " " + tags[i]
      {
        assert tags[i] == rest[i - 1];
      }
    }
  }

  /** Trimming the first piece as it is and each later one behind its space gives back plain tags. */
  lemma TrimPieces(pieces: seq<string>, tags: seq<string>)
    requires |pieces| == |tags| && forall i :: 0 <= i < |tags| ==> Plain(tags[i])
    requires tags != [] && pieces[0] == tags[0]
    requires forall i :: 1 <= i < |tags| ==> pieces[i] == " " + tags[i]
    ensures TrimAll(pieces) == tags
  {
    forall i | 1 <= i < |tags|
      ensures Trim(pieces[i]) == tags[i]
    {
      TrimLeadingSpace(" ", tags[i]);
    }
  }

  /** Saving the loaded tags gives them back, when there is at least one and each is plain. */
  lemma LoadSaveTags(tags: seq<string>)
    requires tags != [] && forall i :: 0 <= i < |tags| ==> Plain(tags[i])
    ensures SaveTags(JoinTags(tags)) == tags
  {
    SplitJoin(tags);
    TrimPieces(Split(JoinTags(tags)), tags);
  }

  /** The edit form's fields. */
  datatype FormData = FormData(title: string, description: string, tags: string)

  /** The form as loaded from the course. */
  function Loaded(c: Course): FormData {
    FormData(c.title, c.description, JoinTags(c.tags))
  }

  /** The body `handleSubmit` sends: title and description as typed, the tags split and trimmed. */
  function Submitted(f: FormData): CourseEdit {
    CourseEdit(f.title, f.description, Some(SaveTags(f.tags)))
  }

  /**
   * Saving the form as loaded leaves a course with plain tags as it was;
   * a course with no tags comes back with the single tag "".
   */
  lemma SaveUnchangedForm(c: Course)
    ensures c.tags != [] && (forall i :: 0 <= i < |c.tags| ==> Plain(c.tags[i])) ==> Edited(c, Submitted(Loaded(c))) == c
    ensures c.tags == [] ==> Edited(c, Submitted(Loaded(c))) == c.(tags := [""])
  {
    if c.tags != [] && forall i :: 0 <= i < |c.tags| ==> Plain(c.tags[i]) {
      LoadSaveTags(c.tags);
    }
    if c.tags == [] {
      SavedTagCount("");
    }
  }
}
