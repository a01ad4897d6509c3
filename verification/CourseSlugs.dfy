/** Course slugs: derived from the title, numbered until free, unique within a tenant. */
module CourseSlugs {
  import opened Wrappers
  import opened Text

  datatype Course = Course(id: Uuid, tenant: Uuid, title: string, slug: string)

  datatype CourseError = CourseNotFound | SlugTooLong | SlugTaken | SlugMissing

  /** The column holds at most this many characters. */
  const SLUG_LENGTH: nat := 255

  /******* Candidates *******/

  /** The slugs probed, in order: `base`, `base-1`, `base-2`, and so on. */
  function Candidate(stem: string, k: nat): string {
    if k == 0 then stem else stem + "-" + Decimal(k)
  }

  lemma CandidatesDiffer(stem: string, j: nat, k: nat)
    requires Candidate(stem, j) == Candidate(stem, k)
    ensures j == k
  {
    if j > 0 && k > 0 {
      assert Candidate(stem, j)[|stem| + 1..] == Decimal(j);
      assert Candidate(stem, k)[|stem| + 1..] == Decimal(k);
      DecimalInjective(j, k);
    }
  }

  ghost function FirstCandidates(stem: string, n: nat): set<string> {
    set k | 0 <= k < n :: Candidate(stem, k)
  }

  lemma {:induction false} CountCandidates(stem: string, n: nat)
    ensures |FirstCandidates(stem, n)| == n
  {
    if n > 0 {
      CountCandidates(stem, n - 1);
      if Candidate(stem, n - 1) in FirstCandidates(stem, n - 1) {
        var k :| 0 <= k < n - 1 && Candidate(stem, k) == Candidate(stem, n - 1);
        CandidatesDiffer(stem, k, n - 1);
      }
      assert FirstCandidates(stem, n) == FirstCandidates(stem, n - 1) + {Candidate(stem, n - 1)};
    }
  }

  lemma SmallerSet(a: set<string>, b: set<string>)
    requires a <= b
    ensures |a| <= |b|
  {
    assert b == a + (b - a);
  }

  /** The pigeonhole: a finite set of slugs cannot hold more candidates than it has members. */
  lemma Pigeonhole(taken: set<string>, stem: string, n: nat)
    requires forall k :: 0 <= k < n ==> Candidate(stem, k) in taken
    ensures n <= |taken|
  {
    CountCandidates(stem, n);
    SmallerSet(FirstCandidates(stem, n), taken);
  }

  ghost predicate IsFirstFree(taken: set<string>, stem: string, k: nat) {
    Candidate(stem, k) !in taken && forall j :: 0 <= j < k ==> Candidate(stem, j) in taken
  }

  /** Some candidate is free, after at most as many probes as there are slugs, and one more. */
  lemma SomeCandidateIsFree(taken: set<string>, stem: string)
    ensures exists k: nat :: k <= |taken| && IsFirstFree(taken, stem, k)
  {
    var k := 0;
    while Candidate(stem, k) in taken
      invariant forall j :: 0 <= j < k ==> Candidate(stem, j) in taken
      decreases |taken| + 1 - k
    {
      Pigeonhole(taken, stem, k + 1);
      k := k + 1;
    }
    Pigeonhole(taken, stem, k);
    assert IsFirstFree(taken, stem, k);
  }

  lemma FirstFreeIsUnique(taken: set<string>, stem: string, j: nat, k: nat)
    requires IsFirstFree(taken, stem, j) && IsFirstFree(taken, stem, k)
    ensures j == k
  {}

  /** Courses of one title in an otherwise empty tenant are numbered in the order of their creation. */
  lemma SameTitleNumbersUp(stem: string, n: nat)
    ensures IsFirstFree(FirstCandidates(stem, n), stem, n)
  {
    if Candidate(stem, n) in FirstCandidates(stem, n) {
      var k :| 0 <= k < n && Candidate(stem, k) == Candidate(stem, n);
      CandidatesDiffer(stem, k, n);
    }
  }

  /******* Slugs of titles *******/

  /** The parts of Unicode the slug depends on: `str.lower` and the letters, digits and underscore of `\w`. */
  datatype Unicode = Unicode(lower: string -> string, isWord: char -> bool)

  ghost predicate IsUnicode(u: Unicode) {
    (forall c: char :: u.isWord(c) ==> !IsSpace(c) && c != '-') && u.isWord('_')
  }

  function Keep(s: string, u: Unicode): string {
    if s == "" then ""
    else (if u.isWord(s[0]) || IsSpace(s[0]) || s[0] == '-' then [s[0]] else "") + Keep(s[1..], u)
  }

  predicate IsSeparator(c: char) {
    IsSpace(c) || c == '_' || c == '-'
  }

  /** Every run of separators becomes one dash; `inRun` says that the character before belongs to a run. */
  function Collapse(s: string, inRun: bool): string {
    if s == "" then ""
    else if IsSeparator(s[0]) then (if inRun then "" else "-") + Collapse(s[1..], true)
    else [s[0]] + Collapse(s[1..], false)
  }

  function Dashed(title: string, u: Unicode): string {
    Collapse(Keep(Strip(u.lower(title)), u), false)
  }

  /** `_slugify`. */
  function Slugify(title: string, u: Unicode): string {
    var slug := Dashed(title, u);
    if |slug| <= SLUG_LENGTH then slug else slug[..SLUG_LENGTH]
  }

  predicate IsLetter(c: char, u: Unicode) {
    u.isWord(c) && c != '_'
  }

  predicate IsSlugChar(c: char, u: Unicode) {
    c == '-' || IsLetter(c, u)
  }

  predicate NoDoubleDash(s: string) {
    forall k :: 0 <= k < |s| - 1 ==> !(s[k] == '-' && s[k + 1] == '-')
  }

  predicate IsSlug(s: string, u: Unicode) {
    |s| <= SLUG_LENGTH && (forall c <- s :: IsSlugChar(c, u)) && NoDoubleDash(s)
  }

  lemma {:induction false} KeepKeeps(s: string, u: Unicode)
    ensures forall c <- Keep(s, u) :: u.isWord(c) || IsSpace(c) || c == '-'
  {
    if s != "" { KeepKeeps(s[1..], u); }
  }

  lemma {:induction false} CollapseShape(s: string, inRun: bool, u: Unicode)
    requires forall c <- s :: u.isWord(c) || IsSpace(c) || c == '-'
    ensures forall c <- Collapse(s, inRun) :: IsSlugChar(c, u)
    ensures NoDoubleDash(Collapse(s, inRun))
    ensures inRun && Collapse(s, inRun) != "" ==> Collapse(s, inRun)[0] != '-'
  {
    if s != "" {
      var rest := Collapse(s[1..], IsSeparator(s[0]));
      CollapseShape(s[1..], IsSeparator(s[0]), u);
      assert u.isWord(s[0]) || IsSpace(s[0]) || s[0] == '-';
      var out := Collapse(s, inRun);
      if out != rest {
        assert out[1..] == rest;
        assert forall k :: 0 < k < |out| ==> out[k] == rest[k - 1];
      }
    }
  }

  /** Whatever the title, its slug is made of letters, digits and single dashes and fits the column. */
  lemma SlugifyGivesSlugs(title: string, u: Unicode)
    ensures IsSlug(Slugify(title, u), u)
  {
    var kept := Keep(Strip(u.lower(title)), u);
    KeepKeeps(Strip(u.lower(title)), u);
    CollapseShape(kept, false, u);
  }

  /** The letters and digits of `s`, in order. */
  function Letters(s: string, u: Unicode): string {
    if s == "" then "" else (if IsLetter(s[0], u) then [s[0]] else "") + Letters(s[1..], u)
  }

  lemma TailSlice(s: string, left: nat, right: nat)
    requires 1 <= left <= right <= |s|
    ensures s[1..][left - 1..right - 1] == s[left..right]
  {}

  lemma {:induction false} LettersOfStripped(s: string, left: nat, right: nat, u: Unicode)
    requires IsUnicode(u) && left <= right <= |s|
    requires forall k :: 0 <= k < left || right <= k < |s| ==> IsSpace(s[k])
    ensures Letters(s[left..right], u) == Letters(s, u)
  {
    if s != "" {
      var tail, l, r := s[1..], if left > 0 then left - 1 else 0, if right > 0 then right - 1 else 0;
      forall k | 0 <= k < l || r <= k < |tail| ensures IsSpace(tail[k]) { assert tail[k] == s[k + 1]; }
      LettersOfStripped(tail, l, r, u);
      if left > 0 {
        assert IsSpace(s[0]);
        TailSlice(s, left, right);
      } else if right > 0 {
        TailSlice(s, 1, right);
        assert s[0..right][1..] == s[1..right];
      } else {
        assert IsSpace(s[0]);
        assert s[0..0] == tail[0..0] == "";
      }
    }
  }

  lemma {:induction false} LettersOfKept(s: string, u: Unicode)
    ensures Letters(Keep(s, u), u) == Letters(s, u)
  {
    if s != "" {
      LettersOfKept(s[1..], u);
      var kept := Keep(s, u);
      if kept != Keep(s[1..], u) { assert kept[1..] == Keep(s[1..], u); }
    }
  }

  lemma {:induction false} LettersOfCollapsed(s: string, inRun: bool, u: Unicode)
    requires IsUnicode(u)
    ensures Letters(Collapse(s, inRun), u) == Letters(s, u)
  {
    if s != "" {
      LettersOfCollapsed(s[1..], IsSeparator(s[0]), u);
      var out, rest := Collapse(s, inRun), Collapse(s[1..], IsSeparator(s[0]));
      if out != rest { assert out[1..] == rest; }
      assert IsLetter(s[0], u) ==> !IsSeparator(s[0]);
    }
  }

  /** Up to the cut at the column's length, a slug spells the letters and digits of the lower-case title. */
  lemma SlugSpellsTheTitle(title: string, u: Unicode)
    requires IsUnicode(u)
    ensures Letters(Dashed(title, u), u) == Letters(u.lower(title), u)
    ensures Slugify(title, u) <= Dashed(title, u)
    ensures |Slugify(title, u)| == if |Dashed(title, u)| <= 255 then |Dashed(title, u)| else 255
  {
    var lower := u.lower(title);
    var left, right := StripCuts(lower);
    LettersOfPart(lower, left, right, u);
  }

  lemma {:induction false} KeepConcat(a: string, b: string, u: Unicode)
    ensures Keep(a + b, u) == Keep(a, u) + Keep(b, u)
  {
    var ab := a + b;
    if a == "" {
      assert ab == b;
    } else {
      assert ab[0] == a[0] && ab[1..] == a[1..] + b;
      KeepConcat(a[1..], b, u);
      Associate(if u.isWord(a[0]) || IsSpace(a[0]) || a[0] == '-' then [a[0]] else "", Keep(a[1..], u), Keep(b, u));
    }
  }

  lemma Associate(a: string, b: string, c: string)
    ensures a + (b + c) == (a + b) + c
  {}

  lemma {:induction false} CollapseConcat(a: string, inRun: bool, b: string)
    ensures Collapse(a + b, inRun) ==
            Collapse(a, inRun) + Collapse(b, if a == "" then inRun else IsSeparator(a[|a| - 1]))
  {
    var ab := a + b;
    if a == "" {
      assert ab == b;
    } else {
      var separates := IsSeparator(a[0]);
      assert ab[0] == a[0] && ab[1..] == a[1..] + b;
      CollapseConcat(a[1..], separates, b);
      var rest, middle := Collapse(b, IsSeparator(a[|a| - 1])), Collapse(a[1..], separates);
      var first := if !separates then [a[0]] else if inRun then "" else "-";
      Associate(first, middle, rest);
    }
  }

  /** A gap holds a space, an underscore or a dash. */
  predicate Separates(gap: string) {
    exists c <- gap :: IsSpace(c) || c == '_' || c == '-'
  }

  lemma {:induction false} KeptGap(gap: string, u: Unicode)
    requires IsUnicode(u) && forall c <- gap :: !IsLetter(c, u)
    ensures Keep(gap, u) != "" <==> Separates(gap)
    ensures forall c <- Keep(gap, u) :: IsSeparator(c)
  {
    if gap != "" {
      KeptGap(gap[1..], u);
      assert gap == [gap[0]] + gap[1..];
      assert !IsLetter(gap[0], u);
    }
  }

  lemma {:induction false} CollapseSeparators(s: string, inRun: bool)
    requires forall c <- s :: IsSeparator(c)
    ensures Collapse(s, inRun) == if s == "" || inRun then "" else "-"
  {
    if s != "" { CollapseSeparators(s[1..], true); }
  }

  /** Between two letters, a gap becomes one dash or, without a separator, nothing. */
  lemma GapBetween(a: string, x: char, gap: string, y: char, b: string, u: Unicode)
    requires IsUnicode(u) && IsLetter(x, u) && IsLetter(y, u) && forall c <- gap :: !IsLetter(c, u)
    ensures Collapse(Keep(a + [x] + gap + [y] + b, u), false) ==
            Collapse(Keep(a, u), false) + [x] + (if Separates(gap) then "-" else "") + [y] + Collapse(Keep(b, u), false)
  {
    KeepConcat(a + [x] + gap + [y], b, u);
    KeepConcat(a + [x] + gap, [y], u);
    KeepConcat(a + [x], gap, u);
    KeepConcat(a, [x], u);
    KeepLetter(x, u);
    KeepLetter(y, u);
    KeptGap(gap, u);
    GapCollapses(Keep(a, u), x, Keep(gap, u), y, Keep(b, u));
  }

  lemma KeepLetter(c: char, u: Unicode)
    requires IsLetter(c, u)
    ensures Keep([c], u) == [c]
  {
    assert [c][1..] == "";
  }

  lemma GapCollapses(a: string, x: char, gap: string, y: char, b: string)
    requires !IsSeparator(x) && !IsSeparator(y) && forall c <- gap :: IsSeparator(c)
    ensures Collapse(a + [x] + gap + [y] + b, false) ==
            Collapse(a, false) + [x] + (if gap != "" then "-" else "") + [y] + Collapse(b, false)
  {
    var ax := a + [x];
    CollapseConcat(ax + gap + [y], false, b);
    CollapseConcat(ax + gap, false, [y]);
    CollapseConcat(ax, false, gap);
    CollapseConcat(a, false, [x]);
    CollapseLetter(x, if a == "" then false else IsSeparator(a[|a| - 1]));
    CollapseLetter(y, IsSeparator((ax + gap)[|ax + gap| - 1]));
    CollapseSeparators(gap, false);
    assert ax[|ax| - 1] == x && (ax + gap + [y])[|ax + gap|] == y;
  }

  lemma CollapseLetter(c: char, inRun: bool)
    requires !IsSeparator(c)
    ensures Collapse([c], inRun) == [c]
  {
    assert [c][1..] == "";
  }

  /** Wherever two letters follow each other in the lower-case title, with a gap of other characters or none between
      them, the slug has a dash between them exactly if the gap holds a space, an underscore or a dash; the letters
      before and after are spelled out around them. */
  lemma GapBecomesDash(title: string, a: string, x: char, gap: string, y: char, b: string, u: Unicode)
    returns (before: string, after: string)
    requires IsUnicode(u) && IsLetter(x, u) && IsLetter(y, u) && forall c <- gap :: !IsLetter(c, u)
    requires u.lower(title) == a + [x] + gap + [y] + b
    ensures Dashed(title, u) == before + [x] + (if Separates(gap) then "-" else "") + [y] + after
    ensures Letters(before, u) == Letters(a, u) && Letters(after, u) == Letters(b, u)
  {
    var lower := u.lower(title);
    var left, right := StripCuts(lower);
    var n, m := |a|, |a| + 1 + |gap|;
    assert lower[n] == x && lower[m] == y;
    assert left <= n && m < right;
    var a', b' := a[left..], b[..right - m - 1];
    assert lower[left..right] == a' + [x] + gap + [y] + b';
    GapBetween(a', x, gap, y, b', u);
    before, after := Collapse(Keep(a', u), false), Collapse(Keep(b', u), false);
    assert forall k :: 0 <= k < left ==> lower[k] == a[k];
    assert forall k :: right - m - 1 <= k < |b| ==> b[k] == lower[m + 1 + k];
    LettersOfPart(a, left, n, u);
    LettersOfPart(b, 0, right - m - 1, u);
    assert a[left..n] == a' && b[0..right - m - 1] == b';
  }

  lemma LettersOfPart(s: string, left: nat, right: nat, u: Unicode)
    requires IsUnicode(u) && left <= right <= |s|
    requires forall k :: 0 <= k < left || right <= k < |s| ==> IsSpace(s[k])
    ensures Letters(Collapse(Keep(s[left..right], u), false), u) == Letters(s, u)
  {
    LettersOfStripped(s, left, right, u);
    LettersOfKept(s[left..right], u);
    LettersOfCollapsed(Keep(s[left..right], u), false, u);
  }

  lemma {:induction false} CollapseEnd(s: string, inRun: bool)
    requires s != "" && !IsSeparator(s[|s| - 1])
    ensures var out := Collapse(s, inRun); out != "" && out[|out| - 1] == s[|s| - 1]
  {
    if |s| > 1 { CollapseEnd(s[1..], IsSeparator(s[0])); }
  }

  lemma TrimmedWordsEnds(s: string, u: Unicode)
    requires IsUnicode(u) && forall c <- s :: IsLetter(c, u) || IsSpace(c)
    requires s != "" ==> !IsSpace(s[0]) && !IsSpace(s[|s| - 1])
    ensures var out := Collapse(Keep(s, u), false);
            out != "" ==> IsLetter(out[0], u) && IsLetter(out[|out| - 1], u)
  {
    KeepAll(s, u);
    if s != "" {
      assert IsLetter(s[0], u) && IsLetter(s[|s| - 1], u);
      CollapseEnd(s, false);
    }
  }

  /** The slug of a title of words and white space begins and ends with a letter or digit. */
  lemma WordsHaveNoOuterDash(title: string, u: Unicode)
    requires IsUnicode(u) && forall c <- u.lower(title) :: IsLetter(c, u) || IsSpace(c)
    ensures var slug := Dashed(title, u); slug != "" ==> IsLetter(slug[0], u) && IsLetter(slug[|slug| - 1], u)
  {
    var lower := u.lower(title);
    var left, right := StripCuts(lower);
    var s := lower[left..right];
    assert s != "" ==> s[0] == lower[left] && s[|s| - 1] == lower[right - 1];
    TrimmedWordsEnds(s, u);
  }

  lemma {:induction false} KeepAll(s: string, u: Unicode)
    requires forall c <- s :: u.isWord(c) || IsSpace(c) || c == '-'
    ensures Keep(s, u) == s
  {
    if s != "" { KeepAll(s[1..], u); }
  }

  lemma {:induction false} CollapseNothing(s: string, inRun: bool, u: Unicode)
    requires IsUnicode(u) && (forall c <- s :: IsSlugChar(c, u)) && NoDoubleDash(s)
    requires inRun && s != "" ==> s[0] != '-'
    ensures Collapse(s, inRun) == s
  {
    if s != "" {
      assert IsSlugChar(s[0], u);
      assert forall k :: 0 <= k < |s| - 1 ==> s[1..][k] == s[k + 1];
      CollapseNothing(s[1..], IsSeparator(s[0]), u);
    }
  }

  lemma StripNothing(s: string)
    requires forall c <- s :: !IsSpace(c)
    ensures Strip(s) == s
  {
    var left, right := StripCuts(s);
    assert forall k :: 0 <= k < |s| ==> !IsSpace(s[k]);
  }

  /** Slugs are exactly the lower-case strings that slugifying leaves alone. */
  lemma SlugsAreFixed(s: string, u: Unicode)
    requires IsUnicode(u) && u.lower(s) == s
    ensures Slugify(s, u) == s <==> IsSlug(s, u)
  {
    SlugifyGivesSlugs(s, u);
    if IsSlug(s, u) {
      assert forall c <- s :: IsSlugChar(c, u);
      assert !IsSpace('-');
      StripNothing(s);
      KeepAll(s, u);
      CollapseNothing(s, false, u);
    }
  }

  /** Slugifying a slug that is in lower case changes nothing. */
  lemma SlugifyIsIdempotent(title: string, u: Unicode)
    requires IsUnicode(u) && u.lower(Slugify(title, u)) == Slugify(title, u)
    ensures Slugify(Slugify(title, u), u) == Slugify(title, u)
  {
    SlugifyGivesSlugs(title, u);
    SlugsAreFixed(Slugify(title, u), u);
  }

  /******* The table *******/

  function Taken(courses: seq<Course>, tenant: Uuid): set<string> {
    set c | c in courses && c.tenant == tenant :: c.slug
  }

  ghost predicate UniqueSlugs(courses: seq<Course>) {
    forall i, j :: 0 <= i < j < |courses| && courses[i].tenant == courses[j].tenant ==>
      courses[i].slug != courses[j].slug
  }

  ghost predicate UniqueIds(courses: seq<Course>) {
    forall i, j :: 0 <= i < j < |courses| ==> courses[i].id != courses[j].id
  }

  class CourseTable {
    var courses: seq<Course>

    ghost predicate Valid()
      reads this
    {
      UniqueSlugs(courses) && UniqueIds(courses) && forall c <- courses :: |c.slug| <= SLUG_LENGTH
    }

    constructor ()
      ensures Valid() && courses == []
    {
      courses := [];
    }

    /** `_unique_slug`: probe the candidates one by one. */
    method UniqueSlug(tenant: Uuid, stem: string) returns (candidate: string)
      ensures exists k: nat ::
                k <= |Taken(courses, tenant)| && IsFirstFree(Taken(courses, tenant), stem, k)
                && candidate == Candidate(stem, k)
      ensures forall k: nat :: IsFirstFree(Taken(courses, tenant), stem, k) ==> candidate == Candidate(stem, k)
    {
      candidate := stem;
      var counter := 1;
      ghost var taken := Taken(courses, tenant);
      while exists c :: c in courses && c.tenant == tenant && c.slug == candidate
        invariant counter >= 1 && candidate == Candidate(stem, counter - 1)
        invariant forall j :: 0 <= j < counter - 1 ==> Candidate(stem, j) in taken
        decreases |taken| + 1 - counter
      {
        assert candidate in taken;
        Pigeonhole(taken, stem, counter);
        candidate := stem + "-" + Decimal(counter);
        counter := counter + 1;
      }
      assert candidate !in taken;
      Pigeonhole(taken, stem, counter - 1);
      assert IsFirstFree(taken, stem, counter - 1);
      forall k: nat | IsFirstFree(taken, stem, k) ensures candidate == Candidate(stem, k) {
        FirstFreeIsUnique(taken, stem, k, counter - 1);
      }
    }

    /** The insert, with the column's length and the unique constraint on tenant and slug. */
    method Insert(course: Course) returns (r: Result<Course, CourseError>)
      requires Valid() && forall c <- courses :: c.id != course.id
      modifies this`courses
      ensures Valid()
      ensures r == (if |course.slug| > SLUG_LENGTH then Failure(SlugTooLong)
                    else if course.slug in Taken(old(courses), course.tenant) then Failure(SlugTaken)
                    else Success(course))
      ensures courses == if r.Success? then old(courses) + [course] else old(courses)
    {
      if |course.slug| > SLUG_LENGTH { return Failure(SlugTooLong); }
      if exists c :: c in courses && c.tenant == course.tenant && c.slug == course.slug { return Failure(SlugTaken); }
      courses := courses + [course];
      return Success(course);
    }

    /** Creating a course takes the first free candidate; it never runs into a taken slug, and fails only
        when that candidate does not fit the column. */
    method CreateCourse(newId: Uuid, tenant: Uuid, title: string, slug: Option<string>, u: Unicode)
      returns (r: Result<Course, CourseError>)
      requires Valid() && forall c <- courses :: c.id != newId
      modifies this`courses
      ensures Valid()
      ensures var stem := if slug.Some? && slug.value != "" then slug.value else Slugify(title, u);
              exists k: nat ::
                && k <= |Taken(old(courses), tenant)| && IsFirstFree(Taken(old(courses), tenant), stem, k)
                && var numbered := if k == 0 then stem else stem + "-" + Decimal(k);
                   r == if |numbered| <= 255 then Success(Course(newId, tenant, title, numbered))
                        else Failure(SlugTooLong)
      ensures courses == if r.Success? then old(courses) + [r.value] else old(courses)
    {
      var stem := if slug.Some? && slug.value != "" then slug.value else Slugify(title, u);
      var candidate := UniqueSlug(tenant, stem);
      ghost var k: nat :| k <= |Taken(courses, tenant)| && IsFirstFree(Taken(courses, tenant), stem, k)
                          && candidate == Candidate(stem, k);
      r := Insert(Course(newId, tenant, title, candidate));
    }

    /** `update_course`, for the slug: the database, not the service, refuses a taken one. */
    method UpdateSlug(tenant: Uuid, id: Uuid, slug: Option<string>) returns (r: Result<Course, CourseError>)
      requires Valid() && (slug.Some? ==> |slug.value| <= SLUG_LENGTH)
      modifies this`courses
      ensures Valid()
      ensures r.Failure? ==> courses == old(courses)
      ensures r == Failure(CourseNotFound) <==> forall c <- old(courses) :: !(c.id == id && c.tenant == tenant)
      ensures r == Failure(SlugMissing) ==> slug == None
      ensures r == Failure(SlugTaken) ==>
                slug.Some? && exists c :: c in courses && c.tenant == tenant && c.id != id && c.slug == slug.value
      ensures r.Success? ==> slug.Some?
      ensures r.Success? ==> exists i | 0 <= i < |old(courses)| ::
                old(courses)[i].id == id && old(courses)[i].tenant == tenant
                && r.value == old(courses)[i].(slug := slug.value) && courses == old(courses)[i := r.value]
      ensures r != Failure(SlugTooLong)
    {
      var i := 0;
      while i < |courses| && courses[i].id != id
        invariant 0 <= i <= |courses|
        invariant forall k :: 0 <= k < i ==> courses[k].id != id
      {
        i := i + 1;
      }
      if i == |courses| || courses[i].tenant != tenant { return Failure(CourseNotFound); }
      assert courses[i] in courses;
      if slug == None { return Failure(SlugMissing); }
      if exists c :: c in courses && c.tenant == tenant && c.id != id && c.slug == slug.value {
        return Failure(SlugTaken);
      }
      var course := courses[i].(slug := slug.value);
      courses := courses[i := course];
      return Success(course);
    }
  }
}
