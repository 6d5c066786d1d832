/** What a root scan guarantees about the category and course tables: rows
    already present are reused and never duplicated or changed, the
    `categories_found` and `courses_found` counters count exactly the rows
    the scan created, every listed category and course has a row once the
    scan succeeds, and a failed scan leaves every table as it was. */
module ScannerRootProofs {
  import opened Common
  import opened FileNodeModel
  import opened ScannerService

  /** No two categories share a name. */
  predicate UniqueCategories(cs: seq<Category>)
  {
    forall i, j :: 0 <= i < j < |cs| ==> cs[i].name != cs[j].name
  }

  /** No two courses of one category share a name. */
  predicate UniqueCourses(cs: seq<Course>)
  {
    forall i, j :: 0 <= i < j < |cs| ==> !(cs[i].categoryId == cs[j].categoryId && cs[i].name == cs[j].name)
  }

  /** `before` is a prefix of `after`, and the counter grew by the rows appended. */
  predicate Grown<T(==)>(before: seq<T>, after: seq<T>, countBefore: nat, countAfter: nat)
  {
    |before| <= |after| && after[..|before|] == before && countAfter == countBefore + (|after| - |before|)
  }

  lemma GrownTrans<T>(a: seq<T>, b: seq<T>, c: seq<T>, na: nat, nb: nat, nc: nat)
    requires Grown(a, b, na, nb) && Grown(b, c, nb, nc)
    ensures Grown(a, c, na, nc)
  {
    assert c[..|a|] == c[..|b|][..|a|];
  }

  /** A lookup that succeeds in a table still finds the same row once the
      table has grown by appending. */
  lemma {:induction false} FindCourseStable(before: seq<Course>, after: seq<Course>, categoryId: nat, name: string)
    requires |before| <= |after| && after[..|before|] == before
    requires FindCourse(before, categoryId, name).Some?
    ensures FindCourse(after, categoryId, name) == FindCourse(before, categoryId, name)
    decreases |before|
  {
    assert after[0] == before[0];
    if !(before[0].categoryId == categoryId && before[0].name == name) {
      assert after[1..][..|before| - 1] == before[1..];
      FindCourseStable(before[1..], after[1..], categoryId, name);
    }
  }

  lemma {:induction false} FindCategoryStable(before: seq<Category>, after: seq<Category>, name: string)
    requires |before| <= |after| && after[..|before|] == before
    requires FindCategory(before, name).Some?
    ensures FindCategory(after, name) == FindCategory(before, name)
    decreases |before|
  {
    assert after[0] == before[0];
    if before[0].name != name {
      assert after[1..][..|before| - 1] == before[1..];
      FindCategoryStable(before[1..], after[1..], name);
    }
  }

  /** One course step: the categories stay, the course table only grows,
      by at most the one row it counts, and stays free of duplicates. */
  lemma CourseStepRows(policy: Policy, categoryId: nat, categoryPath: Path, st: RootWalk, c: CourseDir)
    ensures var r := CourseStep(policy, categoryId, categoryPath, st, c);
      r.db.categories == st.db.categories
      && Grown(st.db.courses, r.db.courses, st.totals.coursesFound, r.totals.coursesFound)
      && r.totals.categoriesFound == st.totals.categoriesFound
      && (UniqueCourses(st.db.courses) ==> UniqueCourses(r.db.courses))
      && (r.ok ==> st.ok && FindCourse(r.db.courses, categoryId, c.name).Some?)
  {
    if st.ok {
      var coursePath := categoryPath + [c.name];
      var pick := CourseRow(st.db, st.totals, categoryId, coursePath, c.name);
      var found := FindCourse(st.db.courses, categoryId, c.name);
      if found.None? {
        assert pick.db.courses[..|st.db.courses|] == st.db.courses;
        if UniqueCourses(st.db.courses) {
          forall i, j | 0 <= i < j < |pick.db.courses|
            ensures !(pick.db.courses[i].categoryId == pick.db.courses[j].categoryId
                      && pick.db.courses[i].name == pick.db.courses[j].name)
          {
            if j == |st.db.courses| {
              assert pick.db.courses[i] in st.db.courses;
            }
          }
        }
      }
    }
  }

  lemma {:induction false} ScanCoursesRows(policy: Policy, categoryId: nat, categoryPath: Path,
                                           st: RootWalk, cs: seq<CourseDir>)
    ensures var r := ScanCourses(policy, categoryId, categoryPath, st, cs);
      r.db.categories == st.db.categories
      && Grown(st.db.courses, r.db.courses, st.totals.coursesFound, r.totals.coursesFound)
      && r.totals.categoriesFound == st.totals.categoriesFound
      && (UniqueCourses(st.db.courses) ==> UniqueCourses(r.db.courses))
      && (r.ok ==> st.ok && forall c :: c in cs ==> FindCourse(r.db.courses, categoryId, c.name).Some?)
    decreases |cs|
  {
    if |cs| > 0 {
      var pre, last := cs[..|cs| - 1], cs[|cs| - 1];
      ScanCoursesRows(policy, categoryId, categoryPath, st, pre);
      var mid := ScanCourses(policy, categoryId, categoryPath, st, pre);
      CourseStepRows(policy, categoryId, categoryPath, mid, last);
      var r := CourseStep(policy, categoryId, categoryPath, mid, last);
      GrownTrans(st.db.courses, mid.db.courses, r.db.courses, st.totals.coursesFound, mid.totals.coursesFound, r.totals.coursesFound);
      if r.ok {
        forall c | c in cs
          ensures FindCourse(r.db.courses, categoryId, c.name).Some?
        {
          if c in pre {
            FindCourseStable(mid.db.courses, r.db.courses, categoryId, c.name);
          }
        }
      }
    }
  }

  /** Every course of the listing has a row under the given category. */
  ghost predicate CoursesFound(courses: seq<Course>, categoryId: nat, cs: seq<CourseDir>)
  {
    forall c :: c in cs ==> FindCourse(courses, categoryId, c.name).Some?
  }

  /** Every category of the listing has a row, and every course listed in
      it has a row under that category's id. */
  ghost predicate Found(db: Db, cats: seq<CategoryDir>)
  {
    forall cat :: cat in cats ==>
      FindCategory(db.categories, cat.name).Some? && cat.courses.Some?
      && CoursesFound(db.courses, FindCategory(db.categories, cat.name).value.id, cat.courses.value)
  }

  /** One category step: both tables only grow, by the rows the counters
      count, stay free of duplicates, and on success hold a row for the
      category and for each of its courses. */
  lemma CategoryStepRows(policy: Policy, rootPath: Path, st: RootWalk, cat: CategoryDir)
    ensures var r := CategoryStep(policy, rootPath, st, cat);
      Grown(st.db.categories, r.db.categories, st.totals.categoriesFound, r.totals.categoriesFound)
      && Grown(st.db.courses, r.db.courses, st.totals.coursesFound, r.totals.coursesFound)
      && (UniqueCategories(st.db.categories) ==> UniqueCategories(r.db.categories))
      && (UniqueCourses(st.db.courses) ==> UniqueCourses(r.db.courses))
      && (r.ok ==> st.ok && Found(r.db, [cat]))
  {
    if st.ok {
      var pick := CategoryRow(st.db, st.totals, rootPath + [cat.name], cat.name);
      var found := FindCategory(st.db.categories, cat.name);
      if found.None? {
        assert pick.db.categories[..|st.db.categories|] == st.db.categories;
        if UniqueCategories(st.db.categories) {
          forall i, j | 0 <= i < j < |pick.db.categories|
            ensures pick.db.categories[i].name != pick.db.categories[j].name
          {
            if j == |st.db.categories| {
              assert pick.db.categories[i] in st.db.categories;
            }
          }
        }
      }
      assert pick.db.courses[..|st.db.courses|] == st.db.courses;
      if cat.courses.Some? {
        var st1 := RootWalk(pick.db, pick.totals, st.extRejected, true);
        ScanCoursesRows(policy, pick.row.id, rootPath + [cat.name], st1, cat.courses.value);
        var r := ScanCourses(policy, pick.row.id, rootPath + [cat.name], st1, cat.courses.value);
        GrownTrans(st.db.courses, pick.db.courses, r.db.courses, st.totals.coursesFound, pick.totals.coursesFound, r.totals.coursesFound);
      }
    }
  }

  /** Later steps keep what earlier steps found. */
  lemma FoundStable(before: Db, after: Db, cats: seq<CategoryDir>)
    requires Found(before, cats)
    requires |before.categories| <= |after.categories| && after.categories[..|before.categories|] == before.categories
    requires |before.courses| <= |after.courses| && after.courses[..|before.courses|] == before.courses
    ensures Found(after, cats)
  {
    forall cat | cat in cats
      ensures FindCategory(after.categories, cat.name).Some? && cat.courses.Some?
              && CoursesFound(after.courses, FindCategory(after.categories, cat.name).value.id, cat.courses.value)
    {
      FindCategoryStable(before.categories, after.categories, cat.name);
      var id := FindCategory(before.categories, cat.name).value.id;
      forall c | c in cat.courses.value
        ensures FindCourse(after.courses, id, c.name).Some?
      {
        FindCourseStable(before.courses, after.courses, id, c.name);
      }
    }
  }

  /** The category loop: both tables only grow, by exactly the rows the two
      counters count, stay free of duplicates, and when the loop succeeds
      every listed category and course has a row. */
  lemma {:induction false} ScanCategoriesRows(policy: Policy, rootPath: Path, st: RootWalk, cats: seq<CategoryDir>)
    ensures var r := ScanCategories(policy, rootPath, st, cats);
      Grown(st.db.categories, r.db.categories, st.totals.categoriesFound, r.totals.categoriesFound)
      && Grown(st.db.courses, r.db.courses, st.totals.coursesFound, r.totals.coursesFound)
      && (UniqueCategories(st.db.categories) ==> UniqueCategories(r.db.categories))
      && (UniqueCourses(st.db.courses) ==> UniqueCourses(r.db.courses))
      && (r.ok ==> st.ok && Found(r.db, cats))
    decreases |cats|
  {
    if |cats| > 0 {
      var pre, last := cats[..|cats| - 1], cats[|cats| - 1];
      ScanCategoriesRows(policy, rootPath, st, pre);
      var mid := ScanCategories(policy, rootPath, st, pre);
      CategoryStepRows(policy, rootPath, mid, last);
      var r := CategoryStep(policy, rootPath, mid, last);
      GrownTrans(st.db.categories, mid.db.categories, r.db.categories,
                 st.totals.categoriesFound, mid.totals.categoriesFound, r.totals.categoriesFound);
      GrownTrans(st.db.courses, mid.db.courses, r.db.courses, st.totals.coursesFound, mid.totals.coursesFound, r.totals.coursesFound);
      if r.ok {
        FoundStable(mid.db, r.db, pre);
        assert cats == pre + [last];
      }
    }
  }

  /** `scan_root_folder` as a whole: a successful scan keeps every row that
      existed, adds exactly `categories_found` categories and
      `courses_found` courses, duplicates nothing, and leaves a row for every
      category and course directory it listed; an unsuccessful one changes
      nothing and reports zero counters. */
  lemma ScanRootRows(db: Db, rootPath: Path, listing: RootListing, policy: Policy)
    ensures var r := ScanRoot(db, rootPath, listing, policy);
      && (r.result.success ==>
            listing.Listed?
            && Grown(db.categories, r.db.categories, 0, r.result.totals.categoriesFound)
            && Grown(db.courses, r.db.courses, 0, r.result.totals.coursesFound)
            && (UniqueCategories(db.categories) ==> UniqueCategories(r.db.categories))
            && (UniqueCourses(db.courses) ==> UniqueCourses(r.db.courses))
            && Found(r.db, listing.categories))
      && (!r.result.success ==> r.db == db && r.result.totals == NoTotals)
  {
    if listing.Listed? {
      ScanCategoriesRows(policy, rootPath, RootWalk(db, NoTotals, [], true), listing.categories);
    }
  }
}
