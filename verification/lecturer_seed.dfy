/** The permanent lecturers: seed records that can be edited but never deleted. */
module LecturerSeed {
  import opened Wrappers
  import opened Text
  import opened Records
  import opened Validation

  /** A seed record: no courses yet and the placeholder semester list `[0]`. */
  function Seed(id: string, name: string, email: string, specialization: string): (l: Lecturer)
    ensures l.courses == [] && l.semesters == [0]
  {
    Lecturer(id, name, email, Some(specialization), [], [0])
  }

  /** The entries of `permanentLecturers`, in declaration order. */
  const Permanent0: Lecturer := Seed("183483748", "ד\"ר יעל כהן", "yael.cohen@university.ac.il", "מדעי המחשב - אלגוריתמים")
  const Permanent1: Lecturer := Seed("349285839", "פרופ' דני לוי", "dani.levi@university.ac.il", "מדעי המחשב - בינה מלאכותית")
  const Permanent2: Lecturer := Seed("349115839", "ד\"ר רונית גבע", "ronit.geva@university.ac.il", "מדעי המחשב - מבני נתונים")
  const Permanent3: Lecturer := Seed("123285839", "פרופ' מיכאל אברהם", "michael.abraham@university.ac.il", "מדעי המחשב - מערכות הפעלה")
  const Permanent4: Lecturer := Seed("349285000", "ד\"ר נועה שפירא", "noa.shapira@university.ac.il", "מדעי המחשב - הנדסת תוכנה")
  const Permanent5: Lecturer := Seed("349000819", "פרופ' דוד רז", "david.raz@university.ac.il", "מדעי המחשב - רשתות תקשורת")
  const Permanent6: Lecturer := Seed("349243239", "ד\"ר מיכל בן-דוד", "michal.bendavid@university.ac.il", "מדעי המחשב - גרפיקה ממוחשבת")
  const Permanent7: Lecturer := Seed("123543989", "פרופ' שלמה קפלן", "shlomo.kaplan@university.ac.il", "מדעי המחשב - למידת מכונה")
  const Permanent8: Lecturer := Seed("321453554", "ד\"ר תמר ישראלי", "tamar.israeli@university.ac.il", "מדעי המחשב - אבטחת מידע")
  const Permanent9: Lecturer := Seed("123111321", "פרופ' רון ברק", "ron.barak@university.ac.il", "מדעי המחשב - עיבוד תמונה")
  const Permanent10: Lecturer := Seed("333213111", "ד\"ר מרים גולן", "miriam.golan@university.ac.il", "מדעי המחשב - כריית נתונים")
  const Permanent11: Lecturer := Seed("876433211", "פרופ' אמיר כהן", "amir.cohen@university.ac.il", "מדעי המחשב - בסיסי נתונים")
  const Permanent12: Lecturer := Seed("453234111", "ד\"ר ליאת פרידמן", "liat.friedman@university.ac.il", "מדעי המחשב - תכנות מקבילי")
  const Permanent13: Lecturer := Seed("111243232", "פרופ' אורי לוי", "uri.levi@university.ac.il", "מדעי המחשב - תורת החישוביות")
  const Permanent14: Lecturer := Seed("432111232", "ד\"ר שרית רגב", "sarit.regev@university.ac.il", "מדעי המחשב - רובוטיקה")

  /** `permanentLecturers`: the fifteen seed records, in declaration order. */
  function PermanentLecturers(): (r: seq<Lecturer>)
    ensures |r| == 15
    ensures forall k :: 0 <= k < |r| ==> r[k].courses == [] && r[k].semesters == [0]
  {
    [
      Permanent0,
      Permanent1,
      Permanent2,
      Permanent3,
      Permanent4,
      Permanent5,
      Permanent6,
      Permanent7,
      Permanent8,
      Permanent9,
      Permanent10,
      Permanent11,
      Permanent12,
      Permanent13,
      Permanent14
    ]
  }

  /** `permanentLecturers.some(p => p.id === id)` */
  predicate IsPermanentId(id: string) {
    exists k :: 0 <= k < |PermanentLecturers()| && PermanentLecturers()[k].id == id
  }
}

/** What the seed table guarantees: distinct nine-digit ids and valid e-mail addresses. */
module LecturerSeedFacts {
  import opened Text
  import opened Records
  import opened Validation
  import opened LecturerSeed

  /** Nine decimal digits. */
  predicate NineDigits(s: string) {
    |s| == 9 && forall i :: 0 <= i < 9 ==> IsDigit(s[i])
  }

  lemma NineDigitsValid(s: string)
    requires NineDigits(s)
    ensures IsValidNationalId(s)
  {
    DigitsOnlyOfDigits(s);
  }

  /** What a seed record promises: a nine-digit id and an address of the e-mail pattern. */
  ghost predicate WellFormedSeed(l: Lecturer) {
    NineDigits(l.id) && MatchesEmailPattern(l.email)
  }

  // Each address is `local@university.ac.il`: the '@' follows the local part and the
  // domain's '.' follows "university".

  lemma SeedWellFormed0()
    ensures WellFormedSeed(Permanent0)
  {
    assert EmailSplitAt(Permanent0.email, 10, 21);
  }

  lemma SeedWellFormed1()
    ensures WellFormedSeed(Permanent1)
  {
    assert EmailSplitAt(Permanent1.email, 9, 20);
  }

  lemma SeedWellFormed2()
    ensures WellFormedSeed(Permanent2)
  {
    assert EmailSplitAt(Permanent2.email, 10, 21);
  }

  lemma SeedWellFormed3()
    ensures WellFormedSeed(Permanent3)
  {
    assert EmailSplitAt(Permanent3.email, 15, 26);
  }

  lemma SeedWellFormed4()
    ensures WellFormedSeed(Permanent4)
  {
    assert EmailSplitAt(Permanent4.email, 11, 22);
  }

  lemma SeedWellFormed5()
    ensures WellFormedSeed(Permanent5)
  {
    assert EmailSplitAt(Permanent5.email, 9, 20);
  }

  lemma SeedWellFormed6()
    ensures WellFormedSeed(Permanent6)
  {
    assert EmailSplitAt(Permanent6.email, 15, 26);
  }

  lemma SeedWellFormed7()
    ensures WellFormedSeed(Permanent7)
  {
    assert EmailSplitAt(Permanent7.email, 13, 24);
  }

  lemma SeedWellFormed8()
    ensures WellFormedSeed(Permanent8)
  {
    assert EmailSplitAt(Permanent8.email, 13, 24);
  }

  lemma SeedWellFormed9()
    ensures WellFormedSeed(Permanent9)
  {
    assert EmailSplitAt(Permanent9.email, 9, 20);
  }

  lemma SeedWellFormed10()
    ensures WellFormedSeed(Permanent10)
  {
    assert EmailSplitAt(Permanent10.email, 12, 23);
  }

  lemma SeedWellFormed11()
    ensures WellFormedSeed(Permanent11)
  {
    assert EmailSplitAt(Permanent11.email, 10, 21);
  }

  lemma SeedWellFormed12()
    ensures WellFormedSeed(Permanent12)
  {
    assert EmailSplitAt(Permanent12.email, 13, 24);
  }

  lemma SeedWellFormed13()
    ensures WellFormedSeed(Permanent13)
  {
    assert EmailSplitAt(Permanent13.email, 8, 19);
  }

  lemma SeedWellFormed14()
    ensures WellFormedSeed(Permanent14)
  {
    assert EmailSplitAt(Permanent14.email, 11, 22);
  }

  lemma SeedsWellFormedFrom0()
    ensures WellFormedSeed(Permanent0)
    ensures WellFormedSeed(Permanent1)
    ensures WellFormedSeed(Permanent2)
    ensures WellFormedSeed(Permanent3)
    ensures WellFormedSeed(Permanent4)
  {
    SeedWellFormed0();
    SeedWellFormed1();
    SeedWellFormed2();
    SeedWellFormed3();
    SeedWellFormed4();
  }

  lemma SeedsWellFormedFrom5()
    ensures WellFormedSeed(Permanent5)
    ensures WellFormedSeed(Permanent6)
    ensures WellFormedSeed(Permanent7)
    ensures WellFormedSeed(Permanent8)
    ensures WellFormedSeed(Permanent9)
  {
    SeedWellFormed5();
    SeedWellFormed6();
    SeedWellFormed7();
    SeedWellFormed8();
    SeedWellFormed9();
  }

  lemma SeedsWellFormedFrom10()
    ensures WellFormedSeed(Permanent10)
    ensures WellFormedSeed(Permanent11)
    ensures WellFormedSeed(Permanent12)
    ensures WellFormedSeed(Permanent13)
    ensures WellFormedSeed(Permanent14)
  {
    SeedWellFormed10();
    SeedWellFormed11();
    SeedWellFormed12();
    SeedWellFormed13();
    SeedWellFormed14();
  }

  /** A fifteen-entry list whose entries are each well formed is well formed throughout. */
  lemma FifteenWellFormed(s: seq<Lecturer>, l0: Lecturer, l1: Lecturer, l2: Lecturer, l3: Lecturer, l4: Lecturer, l5: Lecturer, l6: Lecturer, l7: Lecturer, l8: Lecturer, l9: Lecturer, l10: Lecturer, l11: Lecturer, l12: Lecturer, l13: Lecturer, l14: Lecturer)
    requires s == [l0, l1, l2, l3, l4, l5, l6, l7, l8, l9, l10, l11, l12, l13, l14]
    requires WellFormedSeed(l0)
    requires WellFormedSeed(l1)
    requires WellFormedSeed(l2)
    requires WellFormedSeed(l3)
    requires WellFormedSeed(l4)
    requires WellFormedSeed(l5)
    requires WellFormedSeed(l6)
    requires WellFormedSeed(l7)
    requires WellFormedSeed(l8)
    requires WellFormedSeed(l9)
    requires WellFormedSeed(l10)
    requires WellFormedSeed(l11)
    requires WellFormedSeed(l12)
    requires WellFormedSeed(l13)
    requires WellFormedSeed(l14)
    ensures forall k :: 0 <= k < |s| ==> WellFormedSeed(s[k])
  {
    forall k | 0 <= k < |s| ensures WellFormedSeed(s[k]) {
      if k == 0 {} else if k == 1 {} else if k == 2 {} else if k == 3 {} else if k == 4 {} else if k == 5 {} else if k == 6 {} else if k == 7 {} else if k == 8 {} else if k == 9 {} else if k == 10 {} else if k == 11 {} else if k == 12 {} else if k == 13 {} else {}
    }
  }

  /** Every seed record is well formed. */
  lemma PermanentSeedsWellFormed()
    ensures forall k :: 0 <= k < |PermanentLecturers()| ==> WellFormedSeed(PermanentLecturers()[k])
  {
    SeedsWellFormedFrom0();
    SeedsWellFormedFrom5();
    SeedsWellFormedFrom10();
    FifteenWellFormed(PermanentLecturers(),
      Permanent0, Permanent1, Permanent2, Permanent3, Permanent4,
      Permanent5, Permanent6, Permanent7, Permanent8, Permanent9,
      Permanent10, Permanent11, Permanent12, Permanent13, Permanent14);
  }

  /** Every permanent id is nine decimal digits, so the load-time normalisation
      `p.id.length === 9 ? p.id : generateLecturerId()` keeps it. */
  lemma PermanentIdsNineDigits()
    ensures forall k :: 0 <= k < |PermanentLecturers()| ==>
      IsValidNationalId(PermanentLecturers()[k].id) && |PermanentLecturers()[k].id| == 9
  {
    PermanentSeedsWellFormed();
    forall k | 0 <= k < |PermanentLecturers()|
      ensures IsValidNationalId(PermanentLecturers()[k].id) && |PermanentLecturers()[k].id| == 9
    {
      NineDigitsValid(PermanentLecturers()[k].id);
    }
  }

  /** Every seed e-mail passes `isValidEmail`. */
  lemma PermanentEmailsValid()
    ensures forall k :: 0 <= k < |PermanentLecturers()| ==> IsValidEmail(PermanentLecturers()[k].email)
  {
    PermanentSeedsWellFormed();
  }

  /** The ids in seed order. */
  lemma SeedIdsDistinct()
    ensures var ids := [Permanent0.id, Permanent1.id, Permanent2.id, Permanent3.id, Permanent4.id, Permanent5.id, Permanent6.id, Permanent7.id, Permanent8.id, Permanent9.id, Permanent10.id, Permanent11.id, Permanent12.id, Permanent13.id, Permanent14.id];
      forall i, j :: 0 <= i < j < |ids| ==> ids[i] != ids[j]
  {
  }

  /** Distinct ids carry over from the id list to the fifteen-entry record list. */
  lemma FifteenDistinct(s: seq<Lecturer>, l0: Lecturer, l1: Lecturer, l2: Lecturer, l3: Lecturer, l4: Lecturer, l5: Lecturer, l6: Lecturer, l7: Lecturer, l8: Lecturer, l9: Lecturer, l10: Lecturer, l11: Lecturer, l12: Lecturer, l13: Lecturer, l14: Lecturer)
    requires s == [l0, l1, l2, l3, l4, l5, l6, l7, l8, l9, l10, l11, l12, l13, l14]
    requires var ids := [l0.id, l1.id, l2.id, l3.id, l4.id, l5.id, l6.id, l7.id, l8.id, l9.id, l10.id, l11.id, l12.id, l13.id, l14.id];
      forall i, j :: 0 <= i < j < |ids| ==> ids[i] != ids[j]
    ensures forall i, j :: 0 <= i < j < |s| ==> s[i].id != s[j].id
  {
    var ids := [l0.id, l1.id, l2.id, l3.id, l4.id, l5.id, l6.id, l7.id, l8.id, l9.id, l10.id, l11.id, l12.id, l13.id, l14.id];
    assert forall k :: 0 <= k < |s| ==> s[k].id == ids[k];
  }

  /** There are exactly fifteen permanent lecturers, with pairwise distinct ids. */
  lemma PermanentIdsDistinct()
    ensures |PermanentLecturers()| == 15
    ensures forall i, j :: 0 <= i < j < |PermanentLecturers()| ==>
      PermanentLecturers()[i].id != PermanentLecturers()[j].id
  {
    SeedIdsDistinct();
    FifteenDistinct(PermanentLecturers(),
      Permanent0, Permanent1, Permanent2, Permanent3, Permanent4,
      Permanent5, Permanent6, Permanent7, Permanent8, Permanent9,
      Permanent10, Permanent11, Permanent12, Permanent13, Permanent14);
  }
}
