/** The older `check_catalog` of src/bot.py: one department, courses compared
    as sets of ids, no mass-deletion guard, and the new catalogue accepted
    unconditionally. The per-course comparison is the same as the current
    one (`Differ.CourseDiff`). */
module LegacyCheck {
  import opened Catalog
  import opened Lists
  import opened Differ

  /** The `added`, `deleted` and `modified` of the older check. */
  datatype LegacyChanges = LegacyChanges(added: set<CourseId>, deleted: set<CourseId>,
                                         modified: map<CourseId, CourseMods>)
  {
    /** `len(added) > 0 or len(deleted) > 0 or len(modified) > 0` */
    predicate HasChanges() {
      |added| > 0 || |deleted| > 0 || |modified| > 0
    }
  }

  /** The older diff: set differences for added and deleted ids, and the
      common courses whose mods are non-empty. */
  function LegacyDiff(o: map<CourseId, Course>, n: map<CourseId, Course>): (r: LegacyChanges)
    ensures forall c :: c in r.added <==> c in n && c !in o
    ensures forall c :: c in r.deleted <==> c in o && c !in n
    ensures forall c :: c in r.modified <==> c in o && c in n && o[c] != n[c]
  {
    LegacyChanges(n.Keys - o.Keys, o.Keys - n.Keys, ModifiedCourses(o, n))
  }

  /** The older check notifies exactly when the catalogue changed. */
  lemma LegacyNotifiesIffChanged(o: map<CourseId, Course>, n: map<CourseId, Course>)
    ensures LegacyDiff(o, n).HasChanges() <==> o != n
  {
    if !LegacyDiff(o, n).HasChanges() {
      QuietMeansSame(o, n);
    }
    if o == n {
      assert LegacyDiff(o, n).added == {} && LegacyDiff(o, n).deleted == {};
      assert ModifiedCourses(o, n) == map[];
    }
  }

  lemma QuietMeansSame(o: map<CourseId, Course>, n: map<CourseId, Course>)
    requires !LegacyDiff(o, n).HasChanges()
    ensures o == n
  {
    var r := LegacyDiff(o, n);
    assert r.added == {} && r.deleted == {} && r.modified == map[];
    forall c | c in n
      ensures c in o
    {
      assert c !in r.added;
    }
    forall c | c in o
      ensures c in n && o[c] == n[c]
    {
      assert c !in r.deleted && c !in r.modified;
    }
    MapsAgree(o, n);
  }

  /** The change record gives the new course ids from the old ones. */
  lemma LegacyKeys(o: map<CourseId, Course>, n: map<CourseId, Course>)
    ensures n.Keys == (o.Keys - LegacyDiff(o, n).deleted) + LegacyDiff(o, n).added
  {
  }

  /** The older set-based diff and the current list-based one agree on a
      department: the same ids are added, deleted and modified, and one
      reports a change exactly when the other does. */
  lemma LegacyAgreesWithCurrent(o: Department, n: Department)
    requires o.WellFormed() && n.WellFormed()
    ensures var l := LegacyDiff(o.courses, n.courses);
            (forall c :: c in l.added <==> c in AddedCourses(o, n))
            && (forall c :: c in l.deleted <==> c in DeletedCourses(o, n))
            && (l.HasChanges() <==> DeptDiff(o, n).Some?)
            && (DeptDiff(o, n).Some? ==> DeptDiff(o, n).value.modified.GetOr(map[]) == l.modified)
  {
    LegacyNotifiesIffChanged(o.courses, n.courses);
    DeptDiffNoneIff(o, n);
    DeptDiffModified(o, n);
  }

  /** The `modified` key of a department's entry, read with an empty default,
      is `ModifiedCourses`. */
  lemma DeptDiffModified(o: Department, n: Department)
    requires o.WellFormed() && n.WellFormed()
    ensures DeptDiff(o, n).Some? ==> DeptDiff(o, n).value.modified.GetOr(map[]) == ModifiedCourses(o.courses, n.courses)
  {
    var m := ModifiedCourses(o.courses, n.courses);
    if |m| == 0 {
      assert m == map[];
    }
  }

  /** The loop over `inter` of the older check. */
  method DiffCommonCourseSet(o: map<CourseId, Course>, n: map<CourseId, Course>, inter: set<CourseId>)
    returns (modified: map<CourseId, CourseMods>)
    requires inter == o.Keys * n.Keys
    ensures modified == ModifiedCourses(o, n)
  {
    modified := map[];
    var todo := inter;
    while todo != {}
      invariant todo <= inter
      invariant forall c :: c in modified <==> c in inter - todo && !CourseDiff(o[c], n[c]).IsEmpty()
      invariant forall c :: c in modified ==> modified[c] == CourseDiff(o[c], n[c])
      decreases todo
    {
      var curso :| curso in todo;
      var mods := DiffCourse(o[curso], n[curso]);
      if !mods.IsEmpty() {
        modified := modified[curso := mods];
      }
      todo := todo - {curso};
    }
    ModifiedCoursesOf(o, n, modified);
  }

  /** The module globals `data` and `new_data` of the older bot. */
  class LegacyCatalog {
    var data: map<CourseId, Course>
    var newData: map<CourseId, Course>

    constructor ()
      ensures data == map[] && newData == map[]
    {
      data := map[];
      newData := map[];
    }

    /** The older `check_catalog`, with the parsed catalogue as a parameter;
        `notified` says whether `notify_changes` was called. */
    method CheckCatalog(parsed: map<CourseId, Course>) returns (changes: LegacyChanges, notified: bool)
      modifies this
      ensures changes == LegacyDiff(old(data), parsed)
      ensures notified <==> old(data) != parsed
      ensures data == parsed && newData == parsed
    {
      newData := parsed;
      var oldCursos := data.Keys;
      var newCursos := newData.Keys;
      var added := newCursos - oldCursos;
      var deleted := oldCursos - newCursos;
      var inter := oldCursos * newCursos;
      var modified := DiffCommonCourseSet(data, newData, inter);
      changes := LegacyChanges(added, deleted, modified);
      LegacyNotifiesIffChanged(data, newData);
      notified := changes.HasChanges();
      data := newData;
    }
  }
}
