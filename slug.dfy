/**
 * The slug helpers of server/controllers/courseController.js: `slugify`, the
 * base slug of a generated course, and the `-2`, `-3`, ... candidates of the
 * uniqueness probe.
 */
module Slug {
  import opened Text
  import opened Seqs

  predicate IsSlugChar(c: char) {
    'a' <= c <= 'z' || IsDigit(c) || c == '-'
  }

  /** The characters `.replace(/[^a-z0-9\s-]/g, '')` keeps. */
  predicate Allowed(c: char) {
    IsSlugChar(c) || IsSpace(c)
  }

  predicate IsHyphen(c: char) {
    c == '-'
  }

  /** `s[i..i + 2]` is `--`. */
  predicate HyphenPairAt(s: string, i: int) {
    0 <= i && i + 1 < |s| && s[i] == '-' && s[i + 1] == '-'
  }

  predicate NoDoubleHyphen(s: string) {
    forall i :: 0 <= i < |s| ==> !HyphenPairAt(s, i)
  }

  /** What `slugify` promises: only `[a-z0-9-]`, never `--`. */
  predicate IsSlug(s: string) {
    (forall i :: 0 <= i < |s| ==> IsSlugChar(s[i])) && NoDoubleHyphen(s)
  }

  /** s without its leading run of characters of the class. */
  function DropRun(s: string, inRun: char -> bool): (r: string)
    ensures |r| <= |s| && r == s[|s| - |r|..]
    ensures r == [] || !inRun(r[0])
    ensures s != [] && inRun(s[0]) ==> |r| < |s|
  {
    if s != [] && inRun(s[0]) then DropRun(s[1..], inRun) else s
  }

  /**
   * `s.replace(/<class>+/g, sep)`: every maximal run of characters of the
   * class becomes one `by`; every other character stays where it is.
   */
  function ReplaceRuns(s: string, inRun: char -> bool, sep: char): (r: string)
    ensures s == [] <==> r == []
    ensures s != [] ==> r[0] == if inRun(s[0]) then sep else s[0]
    decreases |s|
  {
    if s == [] then []
    else if inRun(s[0]) then [sep] + ReplaceRuns(DropRun(s, inRun), inRun, sep)
    else [s[0]] + ReplaceRuns(s[1..], inRun, sep)
  }

  /** Each character of the result is `sep` or a character of s outside the class. */
  lemma {:induction false} ReplaceRunsChars(s: string, inRun: char -> bool, sep: char)
    ensures forall c {:trigger c in ReplaceRuns(s, inRun, sep)} ::
      c in ReplaceRuns(s, inRun, sep) ==> c == sep || (c in s && !inRun(c))
    decreases |s|
  {
    if s != [] {
      if inRun(s[0]) {
        var t := DropRun(s, inRun);
        ReplaceRunsChars(t, inRun, sep);
        forall c | c in t ensures c in s {
          var i :| 0 <= i < |t| && t[i] == c;
          assert s[|s| - |t| + i] == c;
        }
      } else {
        ReplaceRunsChars(s[1..], inRun, sep);
      }
    }
  }

  /** Replacing runs of a class that does not occur changes nothing. */
  lemma {:induction false} ReplaceAbsentRuns(s: string, inRun: char -> bool, sep: char)
    requires forall i :: 0 <= i < |s| ==> !inRun(s[i])
    ensures ReplaceRuns(s, inRun, sep) == s
  {
    if s != [] {
      ReplaceAbsentRuns(s[1..], inRun, sep);
    }
  }

  /** After `.replace(/-+/g, '-')` no two hyphens are adjacent. */
  lemma {:induction false} CollapsedHyphens(s: string)
    ensures NoDoubleHyphen(ReplaceRuns(s, IsHyphen, '-'))
    decreases |s|
  {
    if s != [] {
      var r := ReplaceRuns(s, IsHyphen, '-');
      if IsHyphen(s[0]) {
        var t := DropRun(s, IsHyphen);
        var rest := ReplaceRuns(t, IsHyphen, '-');
        CollapsedHyphens(t);
        assert r == ['-'] + rest;
        forall i | 0 <= i < |r|
          ensures !HyphenPairAt(r, i)
        {
          if i > 0 {
            assert !HyphenPairAt(rest, i - 1);
          }
        }
      } else {
        var rest := ReplaceRuns(s[1..], IsHyphen, '-');
        CollapsedHyphens(s[1..]);
        assert r == [s[0]] + rest;
        forall i | 0 < i < |r|
          ensures !HyphenPairAt(r, i)
        {
          assert !HyphenPairAt(rest, i - 1);
        }
      }
    }
  }

  /** A string without `--` is left as it is by `.replace(/-+/g, '-')`. */
  lemma {:induction false} CollapseKeeps(s: string)
    requires NoDoubleHyphen(s)
    ensures ReplaceRuns(s, IsHyphen, '-') == s
  {
    if s != [] {
      forall i | 0 <= i < |s[1..]|
        ensures !HyphenPairAt(s[1..], i)
      {
        assert !HyphenPairAt(s, i + 1);
      }
      CollapseKeeps(s[1..]);
      if IsHyphen(s[0]) {
        assert !HyphenPairAt(s, 0);
        assert DropRun(s[1..], IsHyphen) == s[1..];
        assert DropRun(s, IsHyphen) == s[1..];
      }
    }
  }

  /** `.toLowerCase().trim().replace(/[^a-z0-9\s-]/g, '')` */
  function Stripped(text: string): (r: string)
    ensures forall c :: c in r ==> Allowed(c)
  {
    FilterMembers(Trim(Lower(text)), Allowed);
    Filter(Trim(Lower(text)), Allowed)
  }

  /** `.replace(/\s+/g, '-')` */
  function SpacesToHyphens(s: string): string {
    ReplaceRuns(s, IsSpace, '-')
  }

  /** `.replace(/-+/g, '-')` */
  function CollapseHyphens(s: string): (r: string)
    ensures NoDoubleHyphen(r)
  {
    CollapsedHyphens(s);
    ReplaceRuns(s, IsHyphen, '-')
  }

  /** `slugify`: lowercase, trim, strip, whitespace runs to `-`, hyphen runs to `-`. */
  function Slugify(text: string): (r: string)
    ensures IsSlug(r)
  {
    var stripped := Stripped(text);
    var spaced := SpacesToHyphens(stripped);
    ReplaceRunsChars(stripped, IsSpace, '-');
    assert forall c :: c in spaced ==> IsSlugChar(c);
    var r := CollapseHyphens(spaced);
    ReplaceRunsChars(spaced, IsHyphen, '-');
    assert forall i :: 0 <= i < |r| ==> r[i] in r;
    r
  }

  /** A slug goes through every stage of `slugify` unchanged. */
  lemma SlugifyKeepsSlug(s: string)
    requires IsSlug(s)
    ensures Slugify(s) == s
  {
    assert Stripped(s) == s by {
      assert Lower(s) == s by { LowerNoUpper(s); }
      assert Trim(s) == s by { TrimKeeps(s); }
      FilterAllKept(s, Allowed);
    }
    assert SpacesToHyphens(s) == s by { ReplaceAbsentRuns(s, IsSpace, '-'); }
    assert CollapseHyphens(s) == s by { CollapseKeeps(s); }
  }

  /** The strings `slugify` leaves unchanged are exactly the slugs. */
  lemma SlugifyFixedPoint(s: string)
    ensures Slugify(s) == s <==> IsSlug(s)
  {
    if IsSlug(s) {
      SlugifyKeepsSlug(s);
    }
  }

  /** `slugify` is idempotent. */
  lemma SlugifyIdempotent(s: string)
    ensures Slugify(Slugify(s)) == Slugify(s)
  {
    SlugifyFixedPoint(Slugify(s));
  }

  /** The slug that `createCourse` starts probing from (`|| 'course'` and the empty fallback). */
  function BaseSlug(title: string, topic: string): (r: string)
    ensures r != [] && IsSlug(r)
  {
    var s := Slugify(if title != "" then title else if topic != "" then topic else "course");
    if s == "" then assert IsSlug("course"); "course" else s
  }

  /** The k-th slug the probe tries: the base itself, then `${baseSlug}-${k}` for k >= 2. */
  function Candidate(base: string, k: nat): string
    requires k >= 1
  {
    if k == 1 then base else base + "-" + NatToString(k)
  }

  /** The probe never tries the same slug twice. */
  lemma CandidateInjective(base: string, j: nat, k: nat)
    requires j >= 1 && k >= 1
    requires Candidate(base, j) == Candidate(base, k)
    ensures j == k
  {
    if j >= 2 && k >= 2 {
      var cj, ck := Candidate(base, j), Candidate(base, k);
      assert NatToString(j) == cj[|base| + 1..];
      assert NatToString(k) == ck[|base| + 1..];
      NatToStringInjective(j, k);
    }
  }

  /** What the store holds in `slug`: non-empty, only `[a-z0-9-]`. */
  predicate SlugShaped(s: string) {
    s != [] && forall i :: 0 <= i < |s| ==> IsSlugChar(s[i])
  }

  lemma CandidateShaped(base: string, k: nat)
    requires k >= 1 && SlugShaped(base)
    ensures SlugShaped(Candidate(base, k))
  {
  }

  /** A slug-shaped string has no whitespace, so the schema's `trim` keeps it. */
  lemma SlugShapedIsTrimmed(s: string)
    requires SlugShaped(s)
    ensures Trim(s) == s
  {
    TrimKeeps(s);
  }
}

/** Inputs that show where `slugify` and the probe fall short of a clean slug. */
module SlugExamples {
  import opened Text
  import opened Seqs
  import opened Slug

  lemma EdgeExampleTrimmed(c: char)
    requires 'a' <= c <= 'z'
    ensures Trim(Lower([' ', c, ' ', '!', ' '])) == [c, ' ', '!']
  {
    var s := [' ', c, ' ', '!', ' '];
    LowerNoUpper(s);
    assert s[1..] == [c, ' ', '!', ' '];
    assert Trim(s) == Trim([c, ' ', '!', ' ']);
    assert [c, ' ', '!', ' '][..3] == [c, ' ', '!'];
    assert Trim([c, ' ', '!', ' ']) == Trim([c, ' ', '!']);
  }

  lemma EdgeExampleStripped(c: char)
    requires 'a' <= c <= 'z'
    ensures Stripped([' ', c, ' ', '!', ' ']) == [c, ' ']
  {
    EdgeExampleTrimmed(c);
    assert [c, ' ', '!'][1..] == [' ', '!'];
    assert [' ', '!'][1..] == ['!'];
    assert ['!'][1..] == [];
    assert Filter(['!'], Allowed) == [];
    assert Filter([' ', '!'], Allowed) == [' '];
  }

  lemma EdgeExampleSpaced(c: char)
    requires 'a' <= c <= 'z'
    ensures SpacesToHyphens([c, ' ']) == [c, '-']
  {
    assert [c, ' '][1..] == [' '];
    assert [' '][1..] == [];
    assert DropRun([' '], IsSpace) == [];
    assert ReplaceRuns([' '], IsSpace, '-') == ['-'];
  }

  /**
   * Trimming happens before stripping, so a hyphen can be left at an end:
   * `slugify(" a ! ")` is `"a-"`, and likewise for every other letter.
   */
  lemma SlugifyKeepsEdgeHyphen(c: char)
    requires 'a' <= c <= 'z'
    ensures Slugify([' ', c, ' ', '!', ' ']) == [c, '-']
  {
    EdgeExampleStripped(c);
    EdgeExampleSpaced(c);
    CollapseKeeps([c, '-']);
  }

  /** A title with no letter, digit, space or hyphen slugifies to the empty string. */
  lemma SlugifyMayBeEmpty(s: string)
    requires forall i :: 0 <= i < |s| ==> !Allowed(LowerChar(s[i]))
    ensures Slugify(s) == ""
  {
    var lowered := Lower(s);
    assert Trim(lowered) == lowered by { TrimKeeps(lowered); }
    var kept := Filter(lowered, Allowed);
    assert kept == [] by {
      FilterNoneKept(lowered, Allowed);
    }
    assert Stripped(s) == [];
    assert SpacesToHyphens([]) == [];
  }

  /** A base that ends in a hyphen gives suffixed candidates with `--`. */
  lemma SuffixedCandidateMayDoubleHyphen(base: string, k: nat)
    requires base != [] && base[|base| - 1] == '-' && k >= 2
    ensures !IsSlug(Candidate(base, k))
  {
    var c := Candidate(base, k);
    assert HyphenPairAt(c, |base| - 1);
  }
}
