/** The catalogue differ of `check_catalog` (bot.py): for one department it
    compares the old and the new course dicts and builds the sparse change
    tree `{"added": [...], "deleted": [...], "modified": {course: mods}}`,
    where a course's mods hold `nombre: [old, new]` and `secciones:
    {"added", "deleted", "modified": {section: {field: [old, new]}}}`.
    A key is present only when what it holds is non-empty. */
module Differ {
  import opened Wrappers
  import opened Catalog
  import opened Lists
  import Schedule

  /** The pair `[old, new]` recorded for a changed value. */
  datatype Change<T> = Change(before: T, after: T)

  /** `mods_sec`: the fields of one section that changed. */
  datatype SectionMods = SectionMods(profesores: Option<Change<seq<string>>>,
                                     cupos: Option<Change<string>>,
                                     horarios: Option<Change<Schedule.Schedule>>)
  {
    predicate IsEmpty() {
      profesores.None? && cupos.None? && horarios.None?
    }
  }

  /** `changes_sec`: the section ids added and deleted and the modified sections. */
  datatype SeccionesChanges = SeccionesChanges(added: Option<set<SectionId>>,
                                               deleted: Option<set<SectionId>>,
                                               modified: Option<map<SectionId, SectionMods>>)
  {
    predicate IsEmpty() {
      added.None? && deleted.None? && modified.None?
    }

    /** Every key present holds something non-empty. */
    ghost predicate Sparse() {
      (added.Some? ==> |added.value| > 0)
      && (deleted.Some? ==> |deleted.value| > 0)
      && (modified.Some? ==> |modified.value| > 0
                             && forall s :: s in modified.value ==> !modified.value[s].IsEmpty())
    }
  }

  /** `mods` of a common course. */
  datatype CourseMods = CourseMods(nombre: Option<Change<string>>, secciones: Option<SeccionesChanges>)
  {
    predicate IsEmpty() {
      nombre.None? && secciones.None?
    }

    ghost predicate Sparse() {
      secciones.Some? ==> !secciones.value.IsEmpty() && secciones.value.Sparse()
    }
  }

  /** `all_changes[d]`: the courses added and deleted (as lists, in dict
      order) and the modified courses with their mods. */
  datatype DeptChanges = DeptChanges(added: Option<seq<CourseId>>,
                                     deleted: Option<seq<CourseId>>,
                                     modified: Option<map<CourseId, CourseMods>>)
  {
    ghost predicate Sparse() {
      !(added.None? && deleted.None? && modified.None?)
      && (added.Some? ==> |added.value| > 0)
      && (deleted.Some? ==> |deleted.value| > 0)
      && (modified.Some? ==> |modified.value| > 0
                             && forall c :: c in modified.value ==>
                                  !modified.value[c].IsEmpty() && modified.value[c].Sparse())
    }
  }

  /** `[old, new]` when the two differ, otherwise nothing is recorded. */
  function FieldChange<T(==)>(o: T, n: T): Option<Change<T>> {
    if o != n then Some(Change(o, n)) else None
  }

  function SomeIfNonEmpty<T>(s: set<T>): Option<set<T>> {
    if |s| > 0 then Some(s) else None
  }

  /** The new section rebuilt from the old one and its recorded changes. */
  function PatchSection(o: Section, m: SectionMods): Section {
    Section(if m.profesores.Some? then m.profesores.value.after else o.profesores,
            if m.cupos.Some? then m.cupos.value.after else o.cupos,
            if m.horarios.Some? then m.horarios.value.after else o.horarios)
  }

  /** The changes recorded for a common section: each field is recorded, with
      its old value, exactly when it changed, so nothing is recorded exactly
      when the section is unchanged, and the record rebuilds the new section. */
  function SectionDiff(o: Section, n: Section): (r: SectionMods)
    ensures r.IsEmpty() <==> o == n
    ensures r.profesores.Some? <==> o.profesores != n.profesores
    ensures r.cupos.Some? <==> o.cupos != n.cupos
    ensures r.horarios.Some? <==> o.horarios != n.horarios
    ensures r.profesores.Some? ==> r.profesores.value.before == o.profesores
    ensures r.cupos.Some? ==> r.cupos.value.before == o.cupos
    ensures r.horarios.Some? ==> r.horarios.value.before == o.horarios
    ensures PatchSection(o, r) == n
  {
    SectionMods(FieldChange(o.profesores, n.profesores),
                FieldChange(o.cupos, n.cupos),
                FieldChange(o.horarios, n.horarios))
  }

  /** `modified_sec`: the common sections whose mods are non-empty. */
  function ModifiedSections(o: map<SectionId, Section>, n: map<SectionId, Section>)
    : (r: map<SectionId, SectionMods>)
    ensures forall s :: s in r <==> s in o && s in n && o[s] != n[s]
    ensures forall s :: s in r ==> !r[s].IsEmpty() && PatchSection(o[s], r[s]) == n[s]
  {
    map s | s in o.Keys * n.Keys && !SectionDiff(o[s], n[s]).IsEmpty() :: SectionDiff(o[s], n[s])
  }

  /** `changes_sec` of a common course, or nothing when it stays empty (and
      then `mods` gets no `secciones` key). */
  function SeccionesDiff(o: map<SectionId, Section>, n: map<SectionId, Section>)
    : (r: Option<SeccionesChanges>)
    ensures r.None? <==> o == n
    ensures r.Some? ==> !r.value.IsEmpty() && r.value.Sparse()
    ensures r.Some? ==> r.value.added.GetOr({}) == n.Keys - o.Keys
                        && r.value.deleted.GetOr({}) == o.Keys - n.Keys
                        && r.value.modified.GetOr(map[]) == ModifiedSections(o, n)
  {
    var modified := ModifiedSections(o, n);
    var ch := SeccionesChanges(SomeIfNonEmpty(n.Keys - o.Keys), SomeIfNonEmpty(o.Keys - n.Keys),
                               if |modified| > 0 then Some(modified) else None);
    SomeIfNonEmptyGet(n.Keys - o.Keys);
    SomeIfNonEmptyGet(o.Keys - n.Keys);
    MapEmpty(modified);
    if ch.IsEmpty() then
      SameSections(o, n);
      None
    else
      Some(ch)
  }

  lemma MapEmpty<K, V>(m: map<K, V>)
    ensures |m| == 0 <==> m == map[]
  {
    if |m| == 0 {
      assert m.Keys == {};
    }
  }

  /** No section only on one side and none modified: the maps are equal. */
  lemma SameSections(o: map<SectionId, Section>, n: map<SectionId, Section>)
    requires |n.Keys - o.Keys| == 0 && |o.Keys - n.Keys| == 0
    requires ModifiedSections(o, n) == map[]
    ensures o == n
  {
    assert n.Keys - o.Keys == {} && o.Keys - n.Keys == {};
    assert o.Keys == n.Keys;
    forall s | s in o ensures o[s] == n[s] {
      assert s !in ModifiedSections(o, n);
    }
  }

  /** The section ids of the new course, as the change record gives them. */
  function SectionKeysAfter(o: set<SectionId>, ch: Option<SeccionesChanges>): set<SectionId> {
    match ch
    case None => o
    case Some(c) => (o - c.deleted.GetOr({})) + c.added.GetOr({})
  }

  /** The changes recorded for section `s`, none when it is not listed. */
  function SectionModsOf(ch: Option<SeccionesChanges>, s: SectionId): SectionMods {
    if ch.Some? && ch.value.modified.Some? && s in ch.value.modified.value
    then ch.value.modified.value[s]
    else SectionMods(None, None, None)
  }

  /** The change record of the sections is complete: the old section ids with
      the deleted ones removed and the added ones put in are the new ids, and
      every common section is rebuilt by its recorded changes. */
  lemma SeccionesDiffComplete(o: map<SectionId, Section>, n: map<SectionId, Section>)
    ensures SectionKeysAfter(o.Keys, SeccionesDiff(o, n)) == n.Keys
    ensures forall s :: s in o && s in n ==> PatchSection(o[s], SectionModsOf(SeccionesDiff(o, n), s)) == n[s]
  {
    SeccionesDiffKeys(o, n);
    forall s | s in o && s in n
      ensures PatchSection(o[s], SectionModsOf(SeccionesDiff(o, n), s)) == n[s]
    {
      SeccionesDiffPatch(o, n, s);
    }
  }

  lemma SeccionesDiffKeys(o: map<SectionId, Section>, n: map<SectionId, Section>)
    ensures SectionKeysAfter(o.Keys, SeccionesDiff(o, n)) == n.Keys
  {
    var r := SeccionesDiff(o, n);
    if r.Some? {
      SomeIfNonEmptyGet(o.Keys - n.Keys);
      SomeIfNonEmptyGet(n.Keys - o.Keys);
      KeysAfter(o.Keys, n.Keys);
    }
  }

  lemma SomeIfNonEmptyGet<T>(s: set<T>)
    ensures SomeIfNonEmpty(s).GetOr({}) == s
  {
    if |s| == 0 {
      assert s == {};
    }
  }

  /** The old keys less those only they have, plus those only the new ones
      have, are the new keys. */
  lemma KeysAfter<T>(a: set<T>, b: set<T>)
    ensures (a - (a - b)) + (b - a) == b
  {
  }

  lemma SeccionesDiffPatch(o: map<SectionId, Section>, n: map<SectionId, Section>, s: SectionId)
    requires s in o && s in n
    ensures PatchSection(o[s], SectionModsOf(SeccionesDiff(o, n), s)) == n[s]
  {
    if o[s] != n[s] {
      var m := ModifiedSections(o, n);
      assert s in m;
      assert SeccionesDiff(o, n) == Some(SeccionesChanges(SomeIfNonEmpty(n.Keys - o.Keys),
                                                          SomeIfNonEmpty(o.Keys - n.Keys), Some(m)));
    }
  }

  /** `mods` of a common course: `nombre` when the name changed and
      `secciones` when some section was added, deleted or modified. */
  function CourseDiff(o: Course, n: Course): (r: CourseMods)
    ensures r.IsEmpty() <==> o == n
    ensures r.nombre.Some? <==> o.nombre != n.nombre
    ensures r.nombre.Some? ==> r.nombre.value == Change(o.nombre, n.nombre)
    ensures r.secciones.None? <==> o.secciones == n.secciones
    ensures r.Sparse()
  {
    CourseMods(FieldChange(o.nombre, n.nombre), SeccionesDiff(o.secciones, n.secciones))
  }

  /** `[x for x in xs if x not in keys]` */
  function KeepOut(xs: seq<CourseId>, keys: set<CourseId>): (r: seq<CourseId>)
    ensures forall x :: x in r <==> x in xs && x !in keys
    ensures InOrder(r, xs)
    ensures NoDups(xs) ==> NoDups(r)
    ensures |r| <= |xs|
  {
    if xs == [] then []
    else
      var t := xs[1..];
      var rest := KeepOut(t, keys);
      assert xs == [xs[0]] + t;
      if xs[0] !in keys then
        FilterKeepsHead(xs[0], t, rest);
        [xs[0]] + rest
      else
        FilterDropsHead(xs[0], t, rest);
        rest
  }

  /** `[x for x in xs if x in keys]` */
  function KeepIn(xs: seq<CourseId>, keys: set<CourseId>): (r: seq<CourseId>)
    ensures forall x :: x in r <==> x in xs && x in keys
    ensures InOrder(r, xs)
    ensures NoDups(xs) ==> NoDups(r)
    ensures |r| <= |xs|
  {
    if xs == [] then []
    else
      var t := xs[1..];
      var rest := KeepIn(t, keys);
      assert xs == [xs[0]] + t;
      if xs[0] in keys then
        FilterKeepsHead(xs[0], t, rest);
        [xs[0]] + rest
      else
        FilterDropsHead(xs[0], t, rest);
        rest
  }

  /** Filtering a concatenation filters each part: the kept ids stay in list order. */
  lemma {:induction false} KeepOutAppend(a: seq<CourseId>, b: seq<CourseId>, keys: set<CourseId>)
    ensures KeepOut(a + b, keys) == KeepOut(a, keys) + KeepOut(b, keys)
  {
    if a == [] {
      assert a + b == b;
    } else {
      assert (a + b)[0] == a[0];
      assert (a + b)[1..] == a[1..] + b;
      KeepOutAppend(a[1..], b, keys);
    }
  }

  lemma {:induction false} KeepInAppend(a: seq<CourseId>, b: seq<CourseId>, keys: set<CourseId>)
    ensures KeepIn(a + b, keys) == KeepIn(a, keys) + KeepIn(b, keys)
  {
    if a == [] {
      assert a + b == b;
    } else {
      assert (a + b)[0] == a[0];
      assert (a + b)[1..] == a[1..] + b;
      KeepInAppend(a[1..], b, keys);
    }
  }

  /** `added`: the new courses not in the old dict, in the new dict's order. */
  function AddedCourses(o: Department, n: Department): (r: seq<CourseId>)
    requires n.WellFormed()
    ensures forall c :: c in r <==> c in n.courses && c !in o.courses
    ensures InOrder(r, n.order)
    ensures NoDups(r)
  {
    KeepOut(n.order, o.courses.Keys)
  }

  /** `deleted`: the old courses not in the new dict, in the old dict's order. */
  function DeletedCourses(o: Department, n: Department): (r: seq<CourseId>)
    requires o.WellFormed()
    ensures forall c :: c in r <==> c in o.courses && c !in n.courses
    ensures InOrder(r, o.order)
    ensures NoDups(r)
  {
    KeepOut(o.order, n.courses.Keys)
  }

  /** `inter`: the old courses also in the new dict, in the old dict's order. */
  function CommonCourses(o: Department, n: Department): (r: seq<CourseId>)
    requires o.WellFormed()
    ensures forall c :: c in r <==> c in o.courses && c in n.courses
    ensures InOrder(r, o.order)
    ensures NoDups(r)
  {
    KeepIn(o.order, n.courses.Keys)
  }

  /** `modified`: the common courses whose mods are non-empty. */
  function ModifiedCourses(o: map<CourseId, Course>, n: map<CourseId, Course>): (r: map<CourseId, CourseMods>)
    ensures forall c :: c in r <==> c in o && c in n && o[c] != n[c]
    ensures forall c :: c in r ==> !r[c].IsEmpty() && r[c].Sparse()
  {
    map c | c in o.Keys * n.Keys && !CourseDiff(o[c], n[c]).IsEmpty() :: CourseDiff(o[c], n[c])
  }

  /** The record of a department from its three parts, each key kept only
      when its part is non-empty; nothing when all three are empty. */
  function PackChanges(added: seq<CourseId>, deleted: seq<CourseId>,
                       modified: map<CourseId, CourseMods>): (r: Option<DeptChanges>)
    ensures r.None? <==> |added| == 0 && |deleted| == 0 && |modified| == 0
    ensures r.Some? ==> r.value.added.GetOr([]) == added && r.value.deleted.GetOr([]) == deleted
                        && r.value.modified.GetOr(map[]) == modified
    ensures (r.Some? && forall c :: c in modified ==> !modified[c].IsEmpty() && modified[c].Sparse())
            ==> r.value.Sparse()
  {
    assert |added| == 0 ==> added == [];
    assert |deleted| == 0 ==> deleted == [];
    MapEmpty(modified);
    if |added| > 0 || |deleted| > 0 || |modified| > 0 then
      Some(DeptChanges(if |added| > 0 then Some(added) else None,
                       if |deleted| > 0 then Some(deleted) else None,
                       if |modified| > 0 then Some(modified) else None))
    else None
  }

  /** `all_changes[d]` for a department the guard lets through, or nothing
      when `added`, `deleted` and `modified` are all empty. */
  function DeptDiff(o: Department, n: Department): (r: Option<DeptChanges>)
    requires o.WellFormed() && n.WellFormed()
    ensures r.Some? ==> r.value.Sparse()
    ensures r.Some? ==> r.value.added.GetOr([]) == AddedCourses(o, n)
                        && r.value.deleted.GetOr([]) == DeletedCourses(o, n)
                        && r.value.modified.GetOr(map[]) == ModifiedCourses(o.courses, n.courses)
  {
    PackChanges(AddedCourses(o, n), DeletedCourses(o, n), ModifiedCourses(o.courses, n.courses))
  }

  /** The added, deleted and common courses split the keys of both dicts:
      each key of either dict is in exactly one of the three lists. */
  lemma CoursePartition(o: Department, n: Department, c: CourseId)
    requires o.WellFormed() && n.WellFormed()
    ensures c in o.courses || c in n.courses <==>
              c in AddedCourses(o, n) || c in DeletedCourses(o, n) || c in CommonCourses(o, n)
    ensures !(c in AddedCourses(o, n) && c in DeletedCourses(o, n))
    ensures !(c in AddedCourses(o, n) && c in CommonCourses(o, n))
    ensures !(c in DeletedCourses(o, n) && c in CommonCourses(o, n))
  {
  }

  /** A department gets an entry exactly when its course dict changed; in
      particular comparing a dict with itself records nothing. */
  lemma DeptDiffNoneIff(o: Department, n: Department)
    requires o.WellFormed() && n.WellFormed()
    ensures DeptDiff(o, n).None? <==> o.courses == n.courses
  {
    if DeptDiff(o, n).None? {
      DiffNoneSame(o, n);
    }
    if o.courses == n.courses {
      SameDiffNone(o, n);
    }
  }

  lemma DiffNoneSame(o: Department, n: Department)
    requires o.WellFormed() && n.WellFormed() && DeptDiff(o, n).None?
    ensures o.courses == n.courses
  {
    var added := AddedCourses(o, n);
    var deleted := DeletedCourses(o, n);
    var modified := ModifiedCourses(o.courses, n.courses);
    assert added == [] && deleted == [] && modified == map[];
    MapsAgree(o.courses, n.courses);
  }

  /** Two dicts with the same keys and the same value at each key are equal. */
  lemma MapsAgree(o: map<CourseId, Course>, n: map<CourseId, Course>)
    requires forall c :: c in n ==> c in o
    requires forall c :: c in o ==> c in n && o[c] == n[c]
    ensures o == n
  {
  }

  lemma SameDiffNone(o: Department, n: Department)
    requires o.WellFormed() && n.WellFormed() && o.courses == n.courses
    ensures DeptDiff(o, n).None?
  {
    SeqEmpty(AddedCourses(o, n));
    SeqEmpty(DeletedCourses(o, n));
    assert ModifiedCourses(o.courses, n.courses) == map[];
  }

  /** The course ids of the new dict, as the change record gives them: the
      old ids less the deleted ones, plus the added ones. */
  lemma DeptDiffKeys(o: Department, n: Department)
    requires o.WellFormed() && n.WellFormed()
    ensures var r := DeptDiff(o, n);
            var deleted := if r.Some? then r.value.deleted.GetOr([]) else [];
            var added := if r.Some? then r.value.added.GetOr([]) else [];
            forall c :: c in n.courses <==> (c in o.courses && c !in deleted) || c in added
  {
    DeptDiffNoneIff(o, n);
  }

  lemma ModifiedCoursesEq(o: Department, n: Department, inter: seq<CourseId>, m: map<CourseId, CourseMods>)
    requires forall c :: c in inter <==> c in o.courses && c in n.courses
    requires forall c :: c in m <==> c in inter && !CourseDiff(o.courses[c], n.courses[c]).IsEmpty()
    requires forall c :: c in m ==> m[c] == CourseDiff(o.courses[c], n.courses[c])
    ensures m == ModifiedCourses(o.courses, n.courses)
  {
    ModifiedCoursesOf(o.courses, n.courses, m);
  }

  /** A dict holding exactly the non-empty mods of the common courses is
      `ModifiedCourses`. */
  lemma ModifiedCoursesOf(o: map<CourseId, Course>, n: map<CourseId, Course>, m: map<CourseId, CourseMods>)
    requires forall c :: c in m <==> c in o && c in n && !CourseDiff(o[c], n[c]).IsEmpty()
    requires forall c :: c in m ==> m[c] == CourseDiff(o[c], n[c])
    ensures m == ModifiedCourses(o, n)
  {
    CourseDiffsAre(o, n, m);
  }

  lemma CourseDiffsAre(o: map<CourseId, Course>, n: map<CourseId, Course>, m: map<CourseId, CourseMods>)
    requires forall c :: c in m <==> c in o && c in n && !CourseDiff(o[c], n[c]).IsEmpty()
    requires forall c :: c in m ==> m[c] == CourseDiff(o[c], n[c])
    ensures m == map c | c in o.Keys * n.Keys && !CourseDiff(o[c], n[c]).IsEmpty() :: CourseDiff(o[c], n[c])
  {
    var r := map c | c in o.Keys * n.Keys && !CourseDiff(o[c], n[c]).IsEmpty() :: CourseDiff(o[c], n[c]);
    forall c | c in m ensures c in r && r[c] == m[c] {
    }
    forall c | c in r ensures c in m {
    }
    MapExt(m, r);
  }

  lemma MapExt<K, V>(m: map<K, V>, r: map<K, V>)
    requires forall k :: k in m ==> k in r && r[k] == m[k]
    requires forall k :: k in r ==> k in m
    ensures m == r
  {
    assert m.Keys == r.Keys;
  }

  lemma ModifiedSectionsEq(o: map<SectionId, Section>, n: map<SectionId, Section>,
                           inter: set<SectionId>, m: map<SectionId, SectionMods>)
    requires inter == o.Keys * n.Keys
    requires forall s :: s in m <==> s in inter && !SectionDiff(o[s], n[s]).IsEmpty()
    requires forall s :: s in m ==> m[s] == SectionDiff(o[s], n[s])
    ensures m == ModifiedSections(o, n)
  {
    var r := ModifiedSections(o, n);
    forall s | s in r
      ensures s in m
    {
      assert s in o && s in n && o[s] != n[s];
    }
    forall s | s in m
      ensures s in r && r[s] == m[s]
    {
      assert r[s] == SectionDiff(o[s], n[s]);
    }
  }

  /** `mods_sec` of a common section, built field by field as in the loop body. */
  method DiffSection(before: Section, after: Section) returns (modsSec: SectionMods)
    ensures modsSec == SectionDiff(before, after)
  {
    modsSec := SectionMods(None, None, None);
    if before.profesores != after.profesores {
      modsSec := modsSec.(profesores := Some(Change(before.profesores, after.profesores)));
    }
    if before.cupos != after.cupos {
      modsSec := modsSec.(cupos := Some(Change(before.cupos, after.cupos)));
    }
    if before.horarios != after.horarios {
      modsSec := modsSec.(horarios := Some(Change(before.horarios, after.horarios)));
    }
  }

  /** `modified_sec`: the loop over the common sections of a course. */
  method DiffCommonSections(o: map<SectionId, Section>, n: map<SectionId, Section>, interSec: set<SectionId>)
    returns (modifiedSec: map<SectionId, SectionMods>)
    requires interSec == o.Keys * n.Keys
    ensures modifiedSec == ModifiedSections(o, n)
  {
    modifiedSec := map[];
    var todo := interSec;
    while todo != {}
      invariant todo <= interSec
      invariant forall s :: s in modifiedSec <==>
                  s in interSec - todo && !SectionDiff(o[s], n[s]).IsEmpty()
      invariant forall s :: s in modifiedSec ==> modifiedSec[s] == SectionDiff(o[s], n[s])
      decreases todo
    {
      var s :| s in todo;
      var modsSec := DiffSection(o[s], n[s]);
      if !modsSec.IsEmpty() {
        modifiedSec := modifiedSec[s := modsSec];
      }
      todo := todo - {s};
    }
    ModifiedSectionsEq(o, n, interSec, modifiedSec);
  }

  /** `mods` of a common course, built field by field as in the loop body. */
  method DiffCourse(o: Course, n: Course) returns (mods: CourseMods)
    ensures mods == CourseDiff(o, n)
  {
    var nombre: Option<Change<string>> := None;
    if o.nombre != n.nombre {
      nombre := Some(Change(o.nombre, n.nombre));
    }
    var oldSecciones := o.secciones.Keys;
    var newSecciones := n.secciones.Keys;
    var addedSec := newSecciones - oldSecciones;
    var deletedSec := oldSecciones - newSecciones;
    var interSec := oldSecciones * newSecciones;
    var modifiedSec := DiffCommonSections(o.secciones, n.secciones, interSec);
    var changesSec := SeccionesChanges(None, None, None);
    if |addedSec| > 0 {
      changesSec := changesSec.(added := Some(addedSec));
    }
    if |deletedSec| > 0 {
      changesSec := changesSec.(deleted := Some(deletedSec));
    }
    if |modifiedSec| > 0 {
      changesSec := changesSec.(modified := Some(modifiedSec));
    }
    var secciones: Option<SeccionesChanges> := None;
    if !changesSec.IsEmpty() {
      secciones := Some(changesSec);
    }
    mods := CourseMods(nombre, secciones);
  }

  /** `modified`: the loop over `inter`, keeping the courses whose mods are non-empty. */
  method DiffCommonCourses(o: Department, n: Department, inter: seq<CourseId>)
    returns (modified: map<CourseId, CourseMods>)
    requires forall c :: c in inter <==> c in o.courses && c in n.courses
    ensures modified == ModifiedCourses(o.courses, n.courses)
  {
    modified := map[];
    for i := 0 to |inter|
      invariant forall c :: c in modified <==>
                  c in inter[..i] && !CourseDiff(o.courses[c], n.courses[c]).IsEmpty()
      invariant forall c :: c in modified ==> modified[c] == CourseDiff(o.courses[c], n.courses[c])
    {
      var c := inter[i];
      assert inter[..i + 1] == inter[..i] + [c];
      var mods := DiffCourse(o.courses[c], n.courses[c]);
      if !mods.IsEmpty() {
        modified := modified[c := mods];
      }
    }
    assert inter[..|inter|] == inter;
    ModifiedCoursesEq(o, n, inter, modified);
  }

  /** One department's pass of the loop of `check_catalog`: the three
      comprehensions, then the loop over `inter` filling `modified`. */
  method DiffDepartment(o: Department, n: Department) returns (r: Option<DeptChanges>)
    requires o.WellFormed() && n.WellFormed()
    ensures r == DeptDiff(o, n)
  {
    var added := KeepOut(n.order, o.courses.Keys);
    var deleted := KeepOut(o.order, n.courses.Keys);
    var inter := KeepIn(o.order, n.courses.Keys);
    assert added == AddedCourses(o, n) && deleted == DeletedCourses(o, n);
    var modified := DiffCommonCourses(o, n, inter);
    if |added| > 0 || |deleted| > 0 || |modified| > 0 {
      r := Some(DeptChanges(if |added| > 0 then Some(added) else None,
                            if |deleted| > 0 then Some(deleted) else None,
                            if |modified| > 0 then Some(modified) else None));
    } else {
      r := None;
    }
  }
}
