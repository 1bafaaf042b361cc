/** The catalogue snapshot the bot scrapes: department -> course -> sections.
    A department is a Python dict, so it keeps the order in which its courses
    were scraped; that order is what the added/deleted lists follow. */
module Catalog {
  import Schedule
  import opened Lists

  type DeptId = string
  type CourseId = string
  type SectionId = string

  /** `{"profesores": [...], "cupos": "...", "horarios": {...}}` */
  datatype Section = Section(profesores: seq<string>, cupos: string, horarios: Schedule.Schedule)

  /** `{"nombre": "...", "secciones": {section id: section}}` */
  datatype Course = Course(nombre: string, secciones: map<SectionId, Section>)

  /** An insertion-ordered dict from course id to course: `order` lists the
      keys of `courses` once each, in insertion order. */
  datatype Department = Department(order: seq<CourseId>, courses: map<CourseId, Course>) {
    ghost predicate WellFormed() {
      NoDups(order) && forall c :: c in order <==> c in courses
    }
  }

  /** `{dept id: department}` */
  type Snapshot = map<DeptId, Department>

  const EmptyDepartment := Department([], map[])

  /** Dropping the last element keeps a list free of duplicates, and the
      dropped element is not among the rest. */
  lemma NoDupsInit<T>(xs: seq<T>)
    requires |xs| > 0 && NoDups(xs)
    ensures NoDups(xs[..|xs| - 1]) && xs[|xs| - 1] !in xs[..|xs| - 1]
  {
    var init := xs[..|xs| - 1];
    forall k | 0 <= k < |init| ensures init[k] != xs[|xs| - 1] {
      assert init[k] == xs[k];
    }
  }

  /** `snapshot.get(d, {})` */
  function Get(s: Snapshot, d: DeptId): (r: Department)
    ensures d in s ==> r == s[d]
    ensures d !in s ==> |r.courses| == 0 && r.WellFormed()
  {
    if d in s then s[d] else EmptyDepartment
  }

  /** A scrape found no course at all (`cursos_cnt == 0`). */
  predicate NoCourses(s: Snapshot) {
    forall d :: d in s ==> |s[d].courses| == 0
  }

  /** Every department of the snapshot is well formed. */
  ghost predicate WellFormedSnapshot(s: Snapshot) {
    forall d :: d in s ==> s[d].WellFormed()
  }
}
