/** The lecturer screen: the load-time merge with the permanent seed set, the
    semesters a set of courses allows, and the add / edit / delete handlers, which
    rewrite `course.lecturerId` and save both collections together. */
module LecturerManagement {
  import opened Wrappers
  import opened Seqs
  import opened Text
  import opened Records
  import opened Keyed
  import opened Validation
  import opened LecturerSeed
  import LecturerSeedFacts
  import CourseManagement

  // ---------------------------------------------------------------- load

  /** The seed ids after the length-9 check; an id of another length would be replaced
      by the generated id at the same position of `generated`. */
  function NormalizeIds(ps: seq<Lecturer>, generated: seq<string>): (r: seq<Lecturer>)
    requires |generated| == |ps|
    ensures |r| == |ps|
    ensures forall k :: 0 <= k < |r| ==> r[k].(id := ps[k].id) == ps[k]
    ensures forall k :: 0 <= k < |r| && |ps[k].id| == 9 ==> r[k] == ps[k]
    ensures forall k :: 0 <= k < |r| && |ps[k].id| != 9 ==> r[k].id == generated[k]
  {
    seq(|ps|, k requires 0 <= k < |ps| => if |ps[k].id| == 9 then ps[k] else ps[k].(id := generated[k]))
  }

  /** Every seed id already has nine characters, so the normalisation never fires. */
  lemma {:induction false} SeedIdsUnchanged(generated: seq<string>)
    requires |generated| == |PermanentLecturers()|
    ensures NormalizeIds(PermanentLecturers(), generated) == PermanentLecturers()
  {
    LecturerSeedFacts.PermanentIdsNineDigits();
  }

  /** `saved.filter(l => !perm.some(p => p.id === l.id))` */
  function NotPermanent(saved: seq<Lecturer>, perm: seq<Lecturer>): (r: seq<Lecturer>)
    ensures forall l :: l in r <==> l in saved && !HasKey(perm, LecturerKey, l.id)
    ensures |r| <= |saved|
  {
    if saved == [] then []
    else
      assert saved == [saved[0]] + saved[1..];
      (if HasKey(perm, LecturerKey, saved[0].id) then [] else [saved[0]]) + NotPermanent(saved[1..], perm)
  }

  lemma {:induction false} NotPermanentAppend(a: seq<Lecturer>, b: seq<Lecturer>, perm: seq<Lecturer>)
    ensures NotPermanent(a + b, perm) == NotPermanent(a, perm) + NotPermanent(b, perm)
  {
    if a == [] {
      assert a + b == b;
    } else {
      assert (a + b)[0] == a[0] && (a + b)[1..] == a[1..] + b;
      NotPermanentAppend(a[1..], b, perm);
    }
  }

  /** The merged list: each seed in seed order, replaced by the first saved record with
      its id, then every saved record whose id is not a seed id, in saved order. */
  function Merge(perm: seq<Lecturer>, saved: seq<Lecturer>): (r: seq<Lecturer>)
    ensures |r| == |perm| + |NotPermanent(saved, perm)|
    ensures forall k :: 0 <= k < |perm| ==> r[k].id == perm[k].id
    ensures forall k :: 0 <= k < |perm| ==>
      r[k] == match FirstByKey(saved, LecturerKey, perm[k].id) case Some(l) => l case None => perm[k]
    ensures r[|perm|..] == NotPermanent(saved, perm)
    ensures forall l :: l in saved && !HasKey(perm, LecturerKey, l.id) ==> l in r
    ensures forall l :: l in r ==> l in saved || l in perm
  {
    seq(|perm|, k requires 0 <= k < |perm| => FirstByKey(saved, LecturerKey, perm[k].id).GetOr(perm[k]))
      + NotPermanent(saved, perm)
  }

  /** Loading what the last load saved gives the same list again (seed ids distinct). */
  lemma {:induction false} MergeIdempotent(perm: seq<Lecturer>, saved: seq<Lecturer>)
    requires forall i, j :: 0 <= i < j < |perm| ==> perm[i].id != perm[j].id
    ensures Merge(perm, Merge(perm, saved)) == Merge(perm, saved)
  {
    var m := Merge(perm, saved);
    var r := Merge(perm, m);
    forall k | 0 <= k < |perm| ensures r[k] == m[k] {
      MergeFindsOwnSlot(perm, saved, k);
    }
    MergeSuffixStable(perm, saved);
    assert r[|perm|..] == m[|perm|..];
  }

  lemma {:induction false} MergeFindsOwnSlot(perm: seq<Lecturer>, saved: seq<Lecturer>, k: nat)
    requires forall i, j :: 0 <= i < j < |perm| ==> perm[i].id != perm[j].id
    requires k < |perm|
    ensures FirstByKey(Merge(perm, saved), LecturerKey, perm[k].id) == Some(Merge(perm, saved)[k])
  {
    var m := Merge(perm, saved);
    assert LecturerKey(m[k]) == perm[k].id;
    forall j | 0 <= j < k ensures LecturerKey(m[j]) != perm[k].id {
      assert m[j].id == perm[j].id;
    }
    assert FirstIndex(m, LecturerKey, perm[k].id) == Some(k);
  }

  lemma {:induction false} MergeSuffixStable(perm: seq<Lecturer>, saved: seq<Lecturer>)
    ensures NotPermanent(Merge(perm, saved), perm) == NotPermanent(saved, perm)
  {
    var m := Merge(perm, saved);
    var prefix := m[..|perm|];
    assert m[|perm|..] == NotPermanent(saved, perm);
    assert m == prefix + m[|perm|..];
    NotPermanentAppend(prefix, NotPermanent(saved, perm), perm);
    forall k | 0 <= k < |prefix| ensures HasKey(perm, LecturerKey, prefix[k].id) {
      assert prefix[k] == m[k] && m[k].id == perm[k].id;
      assert LecturerKey(perm[k]) == prefix[k].id;
    }
    NotPermanentOfSeeds(prefix, perm);
    NotPermanentOfNotPermanent(saved, perm);
  }

  lemma {:induction false} NotPermanentOfSeeds(xs: seq<Lecturer>, perm: seq<Lecturer>)
    requires forall k :: 0 <= k < |xs| ==> HasKey(perm, LecturerKey, xs[k].id)
    ensures NotPermanent(xs, perm) == []
  {
    if xs != [] {
      NotPermanentOfSeeds(xs[1..], perm);
    }
  }

  lemma {:induction false} NotPermanentOfNotPermanent(saved: seq<Lecturer>, perm: seq<Lecturer>)
    ensures NotPermanent(NotPermanent(saved, perm), perm) == NotPermanent(saved, perm)
  {
    if saved != [] {
      NotPermanentOfNotPermanent(saved[1..], perm);
      var t := NotPermanent(saved[1..], perm);
      assert saved == [saved[0]] + saved[1..];
      if HasKey(perm, LecturerKey, saved[0].id) {
        assert NotPermanent(saved, perm) == t;
      }
      if !HasKey(perm, LecturerKey, saved[0].id) {
        assert NotPermanent(saved, perm) == [saved[0]] + t;
        assert ([saved[0]] + t)[0] == saved[0] && ([saved[0]] + t)[1..] == t;
        assert NotPermanent([saved[0]] + t, perm) == [saved[0]] + NotPermanent(t, perm);
      }
    }
  }

  /** On a first visit (nothing saved) the list is exactly the seed set. */
  lemma {:induction false} MergeNothingSaved(perm: seq<Lecturer>)
    ensures Merge(perm, []) == perm
  {
    assert NotPermanent([], perm) == [];
  }

  // ----------------------------------------------------------- semesters

  predicate StrictlyAscending(xs: seq<int>) {
    forall i, j :: 0 <= i < j < |xs| ==> xs[i] < xs[j]
  }

  /** Adds `x` to an ascending list of distinct values unless it is already there. */
  function InsertUnique(s: seq<int>, x: int): (r: seq<int>)
    requires StrictlyAscending(s)
    ensures StrictlyAscending(r)
    ensures forall y :: y in r <==> y in s || y == x
  {
    if s == [] then [x]
    else if x < s[0] then [x] + s
    else if x == s[0] then s
    else
      AscendingTail(s);
      var t := InsertUnique(s[1..], x);
      ConsAscending(s[0], t);
      [s[0]] + t
  }

  /** Dropping the head of an ascending list leaves an ascending list above the head. */
  lemma {:induction false} AscendingTail(s: seq<int>)
    requires s != [] && StrictlyAscending(s)
    ensures StrictlyAscending(s[1..])
    ensures forall y :: y in s[1..] ==> s[0] < y
  {
    forall i, j | 0 <= i < j < |s| - 1 ensures s[1..][i] < s[1..][j] {
      assert s[1..][i] == s[i + 1] && s[1..][j] == s[j + 1];
    }
    forall y | y in s[1..] ensures s[0] < y {
      var i :| 0 <= i < |s| - 1 && s[1..][i] == y;
      assert s[i + 1] == y;
    }
  }

  /** A value below every element of an ascending list can go in front of it. */
  lemma {:induction false} ConsAscending(h: int, t: seq<int>)
    requires StrictlyAscending(t)
    requires forall y :: y in t ==> h < y
    ensures StrictlyAscending([h] + t)
  {
    forall i, j | 0 <= i < j < |t| + 1 ensures ([h] + t)[i] < ([h] + t)[j] {
      assert ([h] + t)[j] == t[j - 1];
      if i > 0 {
        assert ([h] + t)[i] == t[i - 1];
      } else {
        assert t[j - 1] in t;
      }
    }
  }

  /** `Array.from(new Set(xs)).sort((a, b) => a - b)`: the distinct values, ascending. */
  function SortedDistinct(xs: seq<int>): (r: seq<int>)
    ensures StrictlyAscending(r)
    ensures forall y :: y in r <==> y in xs
  {
    if xs == [] then []
    else
      assert xs == xs[..|xs| - 1] + [xs[|xs| - 1]];
      InsertUnique(SortedDistinct(xs[..|xs| - 1]), xs[|xs| - 1])
  }

  function CourseSemesters(courses: seq<Course>): (r: seq<int>)
    ensures |r| == |courses| && forall k :: 0 <= k < |r| ==> r[k] == courses[k].semester
  {
    seq(|courses|, k requires 0 <= k < |courses| => courses[k].semester)
  }

  /** `allSemesterOptions`: every semester some course has, ascending, without repeats. */
  function AllSemesterOptions(courses: seq<Course>): (r: seq<int>)
    ensures StrictlyAscending(r)
    ensures forall s :: s in r <==> exists k :: 0 <= k < |courses| && courses[k].semester == s
  {
    var all := CourseSemesters(courses);
    assert forall k :: 0 <= k < |courses| ==> all[k] == courses[k].semester;
    SortedDistinct(all)
  }

  /** `courses[k]` is the last course with the id, the one a `Map` built from the list keeps. */
  predicate IsLastWithId(courses: seq<Course>, id: string, k: int) {
    0 <= k < |courses| && courses[k].id == id && forall j :: k < j < |courses| ==> courses[j].id != id
  }

  /** `courseMapById.get(id)?.semester`; the map keeps the last course with each id. */
  function SemesterOf(courses: seq<Course>, id: string): (r: Option<int>)
    ensures r.Some? ==> exists k :: IsLastWithId(courses, id, k) && courses[k].semester == r.value
    ensures r.None? ==> forall k :: 0 <= k < |courses| ==> courses[k].id != id
  {
    match LastIndex(courses, CourseKey, id)
    case Some(k) => Some(courses[k].semester)
    case None => None
  }

  /** The semesters of the listed ids that name a course, in list order. */
  function ListedSemesters(courses: seq<Course>, ids: seq<string>): (r: seq<int>)
    ensures forall s :: s in r <==> exists i :: 0 <= i < |ids| && SemesterOf(courses, ids[i]) == Some(s)
  {
    if ids == [] then []
    else
      var init := ids[..|ids| - 1];
      assert forall i :: 0 <= i < |init| ==> init[i] == ids[i];
      ListedSemesters(courses, init)
        + match SemesterOf(courses, ids[|ids| - 1]) case Some(s) => [s] case None => []
  }

  /** `getSemestersForCourses(ids)`: the ascending distinct semesters of the listed courses;
      an empty list allows every semester any course has. */
  function SemestersForCourses(courses: seq<Course>, ids: seq<string>): (r: seq<int>)
    ensures StrictlyAscending(r)
    ensures ids == [] ==> forall s :: s in r <==> exists k :: 0 <= k < |courses| && courses[k].semester == s
    ensures ids != [] ==> forall s :: s in r <==> exists i :: 0 <= i < |ids| && SemesterOf(courses, ids[i]) == Some(s)
    ensures forall s :: s in r ==> s in AllSemesterOptions(courses)
  {
    if ids == [] then AllSemesterOptions(courses)
    else SortedDistinct(ListedSemesters(courses, ids))
  }

  /** Adding a value at the end inserts it into the sorted distinct listing. */
  lemma {:induction false} SortedDistinctSnoc(xs: seq<int>, x: int)
    ensures SortedDistinct(xs + [x]) == InsertUnique(SortedDistinct(xs), x)
  {
    assert (xs + [x])[..|xs|] == xs;
  }

  /** One more listed id adds its semester, if it names a course. */
  lemma {:induction false} ListedSemestersStep(courses: seq<Course>, ids: seq<string>, i: nat)
    requires i < |ids|
    ensures SemesterOf(courses, ids[i]).None? ==>
      ListedSemesters(courses, ids[..i + 1]) == ListedSemesters(courses, ids[..i])
    ensures SemesterOf(courses, ids[i]).Some? ==>
      ListedSemesters(courses, ids[..i + 1]) == ListedSemesters(courses, ids[..i]) + [SemesterOf(courses, ids[i]).value]
  {
    assert ids[..i + 1][..i] == ids[..i];
    assert ListedSemesters(courses, ids[..i]) + [] == ListedSemesters(courses, ids[..i]);
  }

  /** The `forEach` over the courses filling the set, then the ascending listing. */
  method ComputeAllSemesterOptions(courses: seq<Course>) returns (r: seq<int>)
    ensures r == AllSemesterOptions(courses)
  {
    r := [];
    var i := 0;
    while i < |courses|
      invariant 0 <= i <= |courses|
      invariant r == SortedDistinct(CourseSemesters(courses[..i]))
    {
      var prefix := CourseSemesters(courses[..i + 1]);
      assert prefix[..i] == CourseSemesters(courses[..i]);
      r := InsertUnique(r, courses[i].semester);
      i := i + 1;
    }
    assert courses[..i] == courses;
  }

  /** The `forEach` over the listed ids, looking each up in the id map. */
  method ComputeSemestersForCourses(courses: seq<Course>, ids: seq<string>) returns (r: seq<int>)
    ensures r == SemestersForCourses(courses, ids)
  {
    if |ids| == 0 {
      r := ComputeAllSemesterOptions(courses);
      return;
    }
    r := [];
    var i := 0;
    while i < |ids|
      invariant 0 <= i <= |ids|
      invariant r == SortedDistinct(ListedSemesters(courses, ids[..i]))
    {
      ListedSemestersStep(courses, ids, i);
      match SemesterOf(courses, ids[i]) {
        case Some(sem) =>
          SortedDistinctSnoc(ListedSemesters(courses, ids[..i]), sem);
          r := InsertUnique(r, sem);
        case None =>
      }
      i := i + 1;
    }
    assert ids[..i] == ids;
  }

  // ------------------------------------------------------- semester text

  /** The numbers `parseInt` made of the comma-separated tokens, `NaN` dropped. */
  function Somes(tokens: seq<Option<int>>): (r: seq<int>)
    ensures forall n :: n in r <==> Some(n) in tokens
    ensures |r| <= |tokens|
  {
    if tokens == [] then []
    else
      assert tokens == [tokens[0]] + tokens[1..];
      (match tokens[0] case Some(n) => [n] case None => []) + Somes(tokens[1..])
  }

  /** Non-empty, trimmed tokens free of the separator. */
  predicate CleanTokens(ts: seq<string>, sep: char) {
    forall k :: 0 <= k < |ts| ==> ts[k] != "" && sep !in ts[k] && IsTrimmed(ts[k])
  }

  /** `parts.map(s => s.trim()).filter(Boolean)` over separator-free parts. */
  function TrimmedNonEmpty(parts: seq<string>, sep: char): (r: seq<string>)
    requires forall k :: 0 <= k < |parts| ==> sep !in parts[k]
    ensures CleanTokens(r, sep)
  {
    if parts == [] then []
    else
      var init := parts[..|parts| - 1];
      var t := Trim(parts[|parts| - 1]);
      TrimKeepsAbsent(parts[|parts| - 1], sep);
      assert forall k :: 0 <= k < |init| ==> init[k] == parts[k];
      var rest := TrimmedNonEmpty(init, sep);
      if t == "" then rest
      else
        CleanTokensSnoc(rest, t, sep);
        rest + [t]
  }

  /** A clean token appended to clean tokens leaves them clean. */
  lemma {:induction false} CleanTokensSnoc(ts: seq<string>, t: string, sep: char)
    requires CleanTokens(ts, sep)
    requires t != "" && sep !in t && IsTrimmed(t)
    ensures CleanTokens(ts + [t], sep)
  {
    forall k | 0 <= k < |ts| + 1
      ensures (ts + [t])[k] != "" && sep !in (ts + [t])[k] && IsTrimmed((ts + [t])[k])
    {
      if k < |ts| {
        assert (ts + [t])[k] == ts[k];
      } else {
        assert (ts + [t])[k] == t;
      }
    }
  }

  /** Tokens that are already trimmed and non-empty pass through unchanged. */
  lemma {:induction false} TrimmedNonEmptyOfTokens(parts: seq<string>, sep: char)
    requires CleanTokens(parts, sep)
    ensures TrimmedNonEmpty(parts, sep) == parts
  {
    if parts != [] {
      TrimOfTrimmed(parts[|parts| - 1]);
      TrimmedNonEmptyOfTokens(parts[..|parts| - 1], sep);
      assert parts == parts[..|parts| - 1] + [parts[|parts| - 1]];
    }
  }

  /** `semestersText.split(',').map(s => s.trim()).filter(Boolean)` */
  function SemesterTextTokens(text: string): (r: seq<string>)
    ensures CleanTokens(r, ',')
  {
    TrimmedNonEmpty(Split(text, ','), ',')
  }

  /** Joining clean tokens with commas and reading them back gives the same tokens. */
  lemma {:induction false} SemesterTextTokensOfJoin(ts: seq<string>)
    requires CleanTokens(ts, ',')
    ensures SemesterTextTokens(Join(ts, ',')) == ts
  {
    if ts == [] {
      assert Split("", ',') == [""];
      assert Trim("") == "";
    } else {
      SplitJoin(ts, ',');
      TrimmedNonEmptyOfTokens(ts, ',');
    }
  }

  /** `t` is `String(a)` for an allowed semester `a`. */
  predicate IsAllowedText(allowed: seq<int>, t: string) {
    exists a :: a in allowed && t == IntToString(a)
  }

  /** `allowedNums.map(n => String(n))` */
  function AllowedTexts(allowed: seq<int>): (r: seq<string>)
    ensures |r| == |allowed| && forall k :: 0 <= k < |r| ==> r[k] == IntToString(allowed[k])
  {
    seq(|allowed|, k requires 0 <= k < |allowed| => IntToString(allowed[k]))
  }

  /** `filterSemestersTextToAllowed(allowed)`: the new form text when dropping the tokens
      that are not the decimal form of an allowed semester changes it, else `None`. */
  function FilterSemestersText(text: string, allowed: seq<int>): (r: Option<string>)
    ensures r.Some? ==> r.value != Join(SemesterTextTokens(text), ',')
  {
    var current := SemesterTextTokens(text);
    var filtered := KeepIn(current, AllowedTexts(allowed));
    if Join(filtered, ',') != Join(current, ',') then Some(Join(filtered, ',')) else None
  }

  /** The text is left alone exactly when every token is an allowed semester. */
  lemma {:induction false} FilterSemestersTextKeeps(text: string, allowed: seq<int>)
    ensures var current := SemesterTextTokens(text);
      FilterSemestersText(text, allowed).None? <==>
        forall k :: 0 <= k < |current| ==> IsAllowedText(allowed, current[k])
  {
    var texts := AllowedTexts(allowed);
    var current := SemesterTextTokens(text);
    var filtered := KeepIn(current, texts);
    FilteredTokensClean(current, texts);
    JoinInjective(filtered, current);
    KeepsAllExactlyWhenAllowed(current, texts);
    assert FilterSemestersText(text, allowed).None? <==> forall k :: 0 <= k < |current| ==> current[k] in texts;
    forall k | 0 <= k < |current|
      ensures current[k] in texts <==> IsAllowedText(allowed, current[k])
    {
      AllowedTextsMembership(allowed, current[k]);
    }
  }

  /** When the text changes, its tokens become exactly the allowed ones, in order. */
  lemma {:induction false} FilterSemestersTextDrops(text: string, allowed: seq<int>)
    ensures var r := FilterSemestersText(text, allowed);
      r.Some? ==> SemesterTextTokens(r.value) == KeepIn(SemesterTextTokens(text), AllowedTexts(allowed))
  {
    var texts := AllowedTexts(allowed);
    var current := SemesterTextTokens(text);
    FilteredTokensClean(current, texts);
    SemesterTextTokensOfJoin(KeepIn(current, texts));
  }

  /** Clean token lists are determined by their comma join. */
  lemma {:induction false} JoinInjective(a: seq<string>, b: seq<string>)
    requires CleanTokens(a, ',') && CleanTokens(b, ',')
    ensures Join(a, ',') == Join(b, ',') <==> a == b
  {
    SemesterTextTokensOfJoin(a);
    SemesterTextTokensOfJoin(b);
  }

  /** The filter keeps the whole list exactly when every element is allowed. */
  lemma {:induction false} KeepsAllExactlyWhenAllowed(xs: seq<string>, allowed: seq<string>)
    ensures KeepIn(xs, allowed) == xs <==> forall k :: 0 <= k < |xs| ==> xs[k] in allowed
  {
    if forall k :: 0 <= k < |xs| ==> xs[k] in allowed {
      KeepInAllAllowed(xs, allowed);
    } else {
      var k :| 0 <= k < |xs| && xs[k] !in allowed;
      assert xs[k] !in KeepIn(xs, allowed);
    }
  }

  lemma {:induction false} AllowedTextsMembership(allowed: seq<int>, t: string)
    ensures t in AllowedTexts(allowed) <==> IsAllowedText(allowed, t)
  {
    var texts := AllowedTexts(allowed);
    if t in texts {
      var j :| 0 <= j < |texts| && texts[j] == t;
      assert allowed[j] in allowed;
    }
    if exists a :: a in allowed && t == IntToString(a) {
      var a :| a in allowed && t == IntToString(a);
      var j :| 0 <= j < |allowed| && allowed[j] == a;
      assert texts[j] == t;
    }
  }

  lemma {:induction false} FilteredTokensClean(current: seq<string>, texts: seq<string>)
    requires CleanTokens(current, ',')
    ensures CleanTokens(KeepIn(current, texts), ',')
    ensures forall k :: 0 <= k < |KeepIn(current, texts)| ==> KeepIn(current, texts)[k] in texts
  {
    var f := KeepIn(current, texts);
    forall k | 0 <= k < |f| ensures f[k] != "" && ',' !in f[k] && IsTrimmed(f[k]) && f[k] in texts {
      assert f[k] in f;
      var j :| 0 <= j < |current| && current[j] == f[k];
    }
  }

  /** The filter settles: run again on the text it produced, it changes nothing. */
  lemma {:induction false} FilterSemestersTextSettles(text: string, allowed: seq<int>)
    ensures var r := FilterSemestersText(text, allowed);
      r.Some? ==> FilterSemestersText(r.value, allowed) == None
  {
    var texts := AllowedTexts(allowed);
    var current := SemesterTextTokens(text);
    var filtered := KeepIn(current, texts);
    FilteredTokensClean(current, texts);
    SemesterTextTokensOfJoin(filtered);
    KeepInIdempotent(current, texts);
  }

  // ------------------------------------------------------------ handlers

  /** Courses after `addLecturer`: each listed course names the new lecturer. */
  function AssignCourses(courses: seq<Course>, ids: seq<string>, lid: string): (r: seq<Course>)
    ensures |r| == |courses|
    ensures forall k :: 0 <= k < |r| ==> r[k].(lecturerId := courses[k].lecturerId) == courses[k]
    ensures forall k :: 0 <= k < |r| ==> r[k].lecturerId == if courses[k].id in ids then lid else courses[k].lecturerId
  {
    seq(|courses|, k requires 0 <= k < |courses| =>
      if courses[k].id in ids then courses[k].(lecturerId := lid) else courses[k])
  }

  /** Courses after `deleteLecturer(lid)`: none names that lecturer any more. */
  function ClearLecturer(courses: seq<Course>, lid: string): (r: seq<Course>)
    ensures |r| == |courses|
    ensures forall k :: 0 <= k < |r| ==> r[k].(lecturerId := courses[k].lecturerId) == courses[k]
    ensures forall k :: 0 <= k < |r| ==> r[k].lecturerId == if courses[k].lecturerId == lid then "" else courses[k].lecturerId
    ensures lid != "" ==> forall k :: 0 <= k < |r| ==> r[k].lecturerId != lid
  {
    seq(|courses|, k requires 0 <= k < |courses| =>
      if courses[k].lecturerId == lid then courses[k].(lecturerId := "") else courses[k])
  }

  /** Courses after lecturer `lid`'s course list became `ids`: afterwards the lecturer is
      named by exactly the listed courses; other courses keep their lecturer. */
  function ReassignCourses(courses: seq<Course>, ids: seq<string>, lid: string): (r: seq<Course>)
    ensures |r| == |courses|
    ensures forall k :: 0 <= k < |r| ==> r[k].(lecturerId := courses[k].lecturerId) == courses[k]
    ensures forall k :: 0 <= k < |r| && courses[k].id in ids ==> r[k].lecturerId == lid
    ensures forall k :: 0 <= k < |r| && courses[k].id !in ids ==>
      r[k].lecturerId == if courses[k].lecturerId == lid then "" else courses[k].lecturerId
    ensures lid != "" ==> forall k :: 0 <= k < |r| ==> (r[k].lecturerId == lid <==> courses[k].id in ids)
  {
    seq(|courses|, k requires 0 <= k < |courses| =>
      if courses[k].id in ids then courses[k].(lecturerId := lid)
      else if courses[k].lecturerId == lid then courses[k].(lecturerId := "")
      else courses[k])
  }

  /** The id of a new lecturer: the trimmed custom id when one was typed. */
  function NewLecturerId(customId: string, generatedId: string): (id: string)
    ensures !IsBlank(customId) ==> id == Trim(customId) && id != ""
    ensures IsBlank(customId) ==> id == generatedId
  {
    if Trim(customId) != "" then Trim(customId) else generatedId
  }

  /** The one field the lecturer table edits. */
  datatype LecturerEdit =
    | SetName(name: string)
    | SetEmail(email: string)
    | SetCourses(courseIds: seq<string>)
    | SetSemesters(semesters: seq<int>)

  /** `ls[k]` is the first lecturer with the id, the one `find` returns. */
  predicate IsFirstWithId(ls: seq<Lecturer>, id: string, k: int) {
    0 <= k < |ls| && ls[k].id == id && forall j :: 0 <= j < k ==> ls[j].id != id
  }

  /** The semesters a lecturer may hold: those of its current courses, looked up in
      the list before the edit (a missing lecturer counts as having none). */
  function AllowedFor(ls: seq<Lecturer>, id: string, courses: seq<Course>): (r: seq<int>)
    ensures StrictlyAscending(r)
    ensures forall s :: s in r ==> s in AllSemesterOptions(courses)
    ensures (forall k :: 0 <= k < |ls| ==> ls[k].id != id) ==> r == AllSemesterOptions(courses)
    ensures forall k :: IsFirstWithId(ls, id, k) ==> r == SemestersForCourses(courses, ls[k].courses)
  {
    match FirstIndex(ls, LecturerKey, id)
    case Some(i) =>
      assert IsFirstWithId(ls, id, i);
      assert forall k :: IsFirstWithId(ls, id, k) ==> k == i;
      SemestersForCourses(courses, ls[i].courses)
    case None =>
      SemestersForCourses(courses, [])
  }

  /** One lecturer after the edit: the field is set; a course list also resets the
      semesters to those of the new courses, and semesters are cut to the allowed ones. */
  function EditedLecturer(l: Lecturer, e: LecturerEdit, courses: seq<Course>, allowed: seq<int>): (r: Lecturer)
    ensures r.id == l.id && r.specialization == l.specialization
    ensures e.SetName? ==> r == l.(name := e.name)
    ensures e.SetEmail? ==> r == l.(email := e.email)
    ensures e.SetCourses? ==> r == l.(courses := e.courseIds, semesters := SemestersForCourses(courses, e.courseIds))
    ensures e.SetSemesters? ==> r == l.(semesters := KeepIn(e.semesters, allowed))
  {
    match e
    case SetName(v) => l.(name := v)
    case SetEmail(v) => l.(email := v)
    case SetCourses(ids) => l.(courses := ids, semesters := SemestersForCourses(courses, ids))
    case SetSemesters(vs) => l.(semesters := KeepIn(vs, allowed))
  }

  /** The lecturers after `editLecturerField(id, field, value)`. */
  function EditLecturers(ls: seq<Lecturer>, id: string, e: LecturerEdit, courses: seq<Course>): (r: seq<Lecturer>)
    ensures |r| == |ls|
    ensures forall k :: 0 <= k < |r| && ls[k].id != id ==> r[k] == ls[k]
    ensures forall k :: 0 <= k < |r| && ls[k].id == id ==>
      r[k] == EditedLecturer(ls[k], e, courses, AllowedFor(ls, id, courses))
    ensures e.SetSemesters? ==> forall k, s :: 0 <= k < |r| && ls[k].id == id && s in r[k].semesters ==>
      s in e.semesters && s in AllowedFor(ls, id, courses)
  {
    var allowed := AllowedFor(ls, id, courses);
    seq(|ls|, k requires 0 <= k < |ls| => if ls[k].id == id then EditedLecturer(ls[k], e, courses, allowed) else ls[k])
  }

  /** The lecturer and course collections the lecturer screen holds and saves together. */
  class LecturerBoard {
    var lecturers: seq<Lecturer>
    var courses: seq<Course>

    /** The load effect: the seeds merged with what was saved; `generated` stands for
        the ids `generateLecturerId` would draw for seeds whose id is not nine long. */
    constructor (savedLecturers: seq<Lecturer>, savedCourses: seq<Course>, generated: seq<string>)
      requires |generated| == |PermanentLecturers()|
      ensures lecturers == Merge(PermanentLecturers(), savedLecturers)
      ensures courses == savedCourses
    {
      SeedIdsUnchanged(generated);
      lecturers := Merge(NormalizeIds(PermanentLecturers(), generated), savedLecturers);
      courses := savedCourses;
    }

    /** `addLecturer(false)`: `semesterTokens` are the form's comma-separated tokens as
        `parseInt` read them, `generatedId` stands for `generateLecturerId()`. */
    method AddLecturer(name: string, email: string, selected: seq<string>, semesterTokens: seq<Option<int>>,
                       customId: string, generatedId: string) returns (ok: bool)
      modifies this
      ensures ok <==> name != "" && email != "" && IsValidEmail(email)
      ensures !ok ==> lecturers == old(lecturers) && courses == old(courses)
      ensures ok ==> lecturers == old(lecturers) + [Lecturer(NewLecturerId(customId, generatedId), name, email, None,
        selected, KeepIn(Somes(semesterTokens), SemestersForCourses(old(courses), selected)))]
      ensures ok ==> courses == AssignCourses(old(courses), selected, NewLecturerId(customId, generatedId))
    {
      // the form's semesters, kept only where the selected courses allow them
      var allowed := ComputeSemestersForCourses(courses, selected);
      var sems := KeepIn(Somes(semesterTokens), allowed);
      // a missing name or email is refused first, then a malformed email
      ok := name != "" && email != "" && IsValidEmail(email);
      if ok {
        var newLect := Lecturer(NewLecturerId(customId, generatedId), name, email, None, selected, sems);
        lecturers, courses := lecturers + [newLect], AssignCourses(courses, selected, newLect.id);
      }
    }

    /** `deleteLecturer(id)`: refused for a seed id; otherwise every lecturer with the id
        goes and every course naming it becomes unassigned. */
    method DeleteLecturer(id: string) returns (ok: bool)
      modifies this
      ensures ok <==> !IsPermanentId(id)
      ensures !ok ==> lecturers == old(lecturers) && courses == old(courses)
      ensures ok ==> lecturers == RemoveByKey(old(lecturers), LecturerKey, id)
      ensures ok ==> courses == ClearLecturer(old(courses), id)
    {
      if IsPermanentId(id) {
        return false;
      }
      lecturers, courses := RemoveByKey(lecturers, LecturerKey, id), ClearLecturer(courses, id);
      return true;
    }

    /** `editLecturerField(id, field, value)`: a new course list also rewrites which
        courses name the lecturer. */
    method EditLecturerField(id: string, e: LecturerEdit)
      modifies this
      ensures lecturers == EditLecturers(old(lecturers), id, e, old(courses))
      ensures courses == if e.SetCourses? then ReassignCourses(old(courses), e.courseIds, id) else old(courses)
    {
      var updatedCourses := courses;
      if e.SetCourses? {
        updatedCourses := ReassignCourses(courses, e.courseIds, id);
      }
      lecturers, courses := EditLecturers(lecturers, id, e, courses), updatedCourses;
    }
  }

  // ----------------------------------------------------- the one-way links

  /** `addLecturer` takes a course over from its lecturer without touching that
      lecturer's list, which still names the course: the reference becomes one-way. */
  lemma {:induction false} AddLecturerLeavesStaleListing(cs: seq<Course>, ls: seq<Lecturer>, p: nat, j: nat,
                                                         selected: seq<string>, newLect: Lecturer)
    requires CourseManagement.UniqueCourseIds(cs)
    requires p < |cs| && j < |ls| && ls[j].id == cs[p].lecturerId && cs[p].id in ls[j].courses
    requires cs[p].id in selected && newLect.id != cs[p].lecturerId
    ensures !CourseManagement.Linked(AssignCourses(cs, selected, newLect.id), ls + [newLect])
  {
    var cs' := AssignCourses(cs, selected, newLect.id);
    var ls' := ls + [newLect];
    assert ls'[j] == ls[j];
    assert !CourseManagement.CourseNames(cs', cs[p].id, ls[j].id) by {
      forall i | 0 <= i < |cs'| && cs'[i].id == cs[p].id ensures cs'[i].lecturerId != ls[j].id {
        assert i == p;
      }
    }
  }

  /** Editing a lecturer's course list likewise takes listed courses over from their
      lecturers without updating those lecturers' lists. */
  lemma {:induction false} EditCoursesLeavesStaleListing(cs: seq<Course>, ls: seq<Lecturer>, p: nat, j: nat,
                                                         id: string, ids: seq<string>)
    requires CourseManagement.UniqueCourseIds(cs)
    requires p < |cs| && j < |ls| && ls[j].id == cs[p].lecturerId && cs[p].id in ls[j].courses
    requires cs[p].id in ids && id != cs[p].lecturerId
    ensures !CourseManagement.Linked(ReassignCourses(cs, ids, id), EditLecturers(ls, id, SetCourses(ids), cs))
  {
    var cs' := ReassignCourses(cs, ids, id);
    var ls' := EditLecturers(ls, id, SetCourses(ids), cs);
    assert ls'[j] == ls[j];
    assert !CourseManagement.CourseNames(cs', cs[p].id, ls[j].id) by {
      forall i | 0 <= i < |cs'| && cs'[i].id == cs[p].id ensures cs'[i].lecturerId != ls[j].id {
        assert i == p;
      }
    }
  }

  /** Deleting a lecturer keeps the reference two-way: its courses become unassigned and
      it no longer lists anything. */
  lemma {:induction false} DeleteLecturerKeepsLinked(cs: seq<Course>, ls: seq<Lecturer>, id: string)
    requires CourseManagement.Linked(cs, ls)
    ensures CourseManagement.Linked(ClearLecturer(cs, id), RemoveByKey(ls, LecturerKey, id))
  {
    DeleteLecturerKeepsListed(cs, ls, id);
    DeleteLecturerKeepsNamed(cs, ls, id);
  }

  lemma {:induction false} DeleteLecturerKeepsListed(cs: seq<Course>, ls: seq<Lecturer>, id: string)
    requires CourseManagement.Linked(cs, ls)
    ensures var cs', ls' := ClearLecturer(cs, id), RemoveByKey(ls, LecturerKey, id);
      forall i :: 0 <= i < |cs'| && cs'[i].lecturerId != "" ==>
        CourseManagement.LecturerLists(ls', cs'[i].lecturerId, cs'[i].id)
  {
    var cs' := ClearLecturer(cs, id);
    var ls' := RemoveByKey(ls, LecturerKey, id);
    forall i | 0 <= i < |cs'| && cs'[i].lecturerId != ""
      ensures CourseManagement.LecturerLists(ls', cs'[i].lecturerId, cs'[i].id)
    {
      assert cs'[i].lecturerId == cs[i].lecturerId != id && cs'[i].id == cs[i].id;
      assert CourseManagement.LecturerLists(ls, cs[i].lecturerId, cs[i].id);
      var j :| 0 <= j < |ls| && ls[j].id == cs[i].lecturerId && cs[i].id in ls[j].courses;
      assert ls[j] in ls';
      var j' :| 0 <= j' < |ls'| && ls'[j'] == ls[j];
    }
  }

  lemma {:induction false} DeleteLecturerKeepsNamed(cs: seq<Course>, ls: seq<Lecturer>, id: string)
    requires CourseManagement.Linked(cs, ls)
    ensures var cs', ls' := ClearLecturer(cs, id), RemoveByKey(ls, LecturerKey, id);
      forall j, x :: 0 <= j < |ls'| && x in ls'[j].courses ==> CourseManagement.CourseNames(cs', x, ls'[j].id)
  {
    var cs' := ClearLecturer(cs, id);
    var ls' := RemoveByKey(ls, LecturerKey, id);
    forall j, x | 0 <= j < |ls'| && x in ls'[j].courses
      ensures CourseManagement.CourseNames(cs', x, ls'[j].id)
    {
      var l := ls'[j];
      assert l in ls' && l.id != id;
      var j0 :| 0 <= j0 < |ls| && ls[j0] == l;
      assert CourseManagement.CourseNames(cs, x, l.id);
      var i :| 0 <= i < |cs| && cs[i].id == x && cs[i].lecturerId == l.id;
      assert cs'[i].id == x && cs'[i].lecturerId == l.id;
    }
  }
}
