/** `check_catalog` of bot.py: scrape (aborting when everything vanished),
    then for every department in `DEPTS` order either keep the old courses
    (mass-deletion guard) or diff old against new, and finally accept the new
    snapshot as the current one. */
module CatalogCheck {
  import opened Wrappers
  import opened Catalog
  import opened Lists
  import opened Differ

  /** The two ways a check is abandoned: `AllDeletedException` from the
      scrape, and the `KeyError` of `data.current_data[d]` / `data.new_data[d]`. */
  datatype CheckError = AllDeleted | MissingDepartment(dept: DeptId)

  /** What a check reports: the `all_changes` dict, the departments the guard
      skipped (each announced to the admin), and whether `notify_changes` ran. */
  datatype Outcome =
    | Checked(changes: map<DeptId, DeptChanges>, skipped: seq<DeptId>, notified: bool)
    | Aborted(error: CheckError)

  /** The end of `scrape_catalog`: a scrape that found no course while the
      bot already holds a catalogue is refused. */
  function Scrape(current: Snapshot, scraped: Snapshot): (r: Result<Snapshot, CheckError>)
    ensures r.Err? <==> |current| > 0 && NoCourses(scraped)
    ensures r.Err? ==> r.error == AllDeleted
    ensures r.Ok? ==> r.value == scraped
  {
    if |current| > 0 && NoCourses(scraped) then Err(AllDeleted) else Ok(scraped)
  }

  /** The mass-deletion guard: a department that had at least 3 courses and
      now has none. */
  function Guard(before: Department, after: Department): (r: bool)
    ensures r ==> forall c :: c in before.courses ==> c !in after.courses
    ensures |before.courses| < 3 || |after.courses| > 0 ==> !r
  {
    |before.courses| >= 3 && |after.courses| == 0
  }

  /** A department the loop gets through: guarded, or present in both snapshots. */
  predicate Resolvable(cur: Snapshot, scraped: Snapshot, d: DeptId) {
    Guard(Get(cur, d), Get(scraped, d)) || (d in cur && d in scraped)
  }

  /** The loop's state after some departments: `all_changes`, `data.new_data`,
      the skipped departments, and the department whose lookup failed. */
  datatype Progress = Progress(changes: map<DeptId, DeptChanges>, newData: Snapshot,
                               skipped: seq<DeptId>, failed: Option<DeptId>)

  /** One pass of the department loop. */
  function Step(cur: Snapshot, p: Progress, d: DeptId): (r: Progress)
    requires WellFormedSnapshot(cur) && WellFormedSnapshot(p.newData)
    ensures WellFormedSnapshot(r.newData)
  {
    if p.failed.Some? then p
    else
      var before := Get(cur, d);
      var after := Get(p.newData, d);
      if Guard(before, after) then
        p.(newData := p.newData[d := before], skipped := p.skipped + [d])
      else if d !in cur || d !in p.newData then
        p.(failed := Some(d))
      else
        match DeptDiff(cur[d], p.newData[d])
        case None => p
        case Some(ch) => p.(changes := p.changes[d := ch])
  }

  /** The department loop run over `ds`, starting from the scraped snapshot. */
  function Run(cur: Snapshot, scraped: Snapshot, ds: seq<DeptId>): (p: Progress)
    requires WellFormedSnapshot(cur) && WellFormedSnapshot(scraped)
    ensures WellFormedSnapshot(p.newData)
    decreases |ds|
  {
    if ds == [] then Progress(map[], scraped, [], None)
    else Step(cur, Run(cur, scraped, ds[..|ds| - 1]), ds[|ds| - 1])
  }

  /** What a check leaves behind: its outcome and the two globals. */
  datatype CheckResult = CheckResult(outcome: Outcome, currentData: Snapshot, newData: Snapshot)

  /** `check_catalog` as a function of the current catalogue, the previous
      `data.new_data`, the scrape and `DEPTS`. */
  function CheckSpec(cur: Snapshot, prevNew: Snapshot, scraped: Snapshot, depts: seq<DeptId>): (r: CheckResult)
    requires WellFormedSnapshot(cur) && WellFormedSnapshot(scraped)
    ensures r.outcome.Aborted? ==> r.currentData == cur
    ensures r.outcome.Aborted? && r.outcome.error == AllDeleted ==> r.newData == prevNew
    ensures r.outcome.Checked? ==> r.currentData == r.newData && WellFormedSnapshot(r.currentData)
    ensures r.outcome.Checked? ==> (r.outcome.notified <==> |r.outcome.changes| > 0)
  {
    match Scrape(cur, scraped)
    case Err(e) => CheckResult(Aborted(e), cur, prevNew)
    case Ok(s) =>
      var p := Run(cur, s, depts);
      if p.failed.Some? then CheckResult(Aborted(MissingDepartment(p.failed.value)), cur, p.newData)
      else CheckResult(Checked(p.changes, p.skipped, |p.changes| > 0), p.newData, p.newData)
  }

  /** The module globals `data.current_data` and `data.new_data`. */
  class CatalogData {
    var currentData: Snapshot
    var newData: Snapshot

    ghost predicate Valid()
      reads this
    {
      WellFormedSnapshot(currentData) && WellFormedSnapshot(newData)
    }

    /** The catalogue loaded at start-up; `new_data` starts empty. */
    constructor (loaded: Snapshot)
      requires WellFormedSnapshot(loaded)
      ensures Valid() && currentData == loaded && newData == map[]
    {
      currentData := loaded;
      newData := map[];
    }

    /** `check_catalog`, with the scrape's result as a parameter. */
    method CheckCatalog(depts: seq<DeptId>, scraped: Snapshot) returns (outcome: Outcome)
      requires Valid() && WellFormedSnapshot(scraped)
      modifies this
      ensures Valid()
      ensures CheckResult(outcome, currentData, newData)
              == CheckSpec(old(currentData), old(newData), scraped, depts)
    {
      var scrape := Scrape(currentData, scraped);
      if scrape.Err? {
        return Aborted(scrape.error);
      }
      newData := scrape.value;
      var allChanges: map<DeptId, DeptChanges> := map[];
      var skipped: seq<DeptId> := [];
      for i := 0 to |depts|
        invariant currentData == old(currentData) && Valid()
        invariant Run(currentData, scraped, depts[..i]) == Progress(allChanges, newData, skipped, None)
      {
        var d := depts[i];
        RunSnoc(currentData, scraped, depts, i);
        ghost var p := Progress(allChanges, newData, skipped, None);
        var oldCursos := Get(currentData, d);
        var newCursos := Get(newData, d);
        if |oldCursos.courses| >= 3 && |newCursos.courses| == 0 {
          newData := newData[d := oldCursos];
          skipped := skipped + [d];
          assert Step(currentData, p, d) == Progress(allChanges, newData, skipped, None);
          continue;
        }
        if d !in currentData || d !in newData {
          assert Step(currentData, p, d) == p.(failed := Some(d));
          RunFailedStays(currentData, scraped, depts, i + 1);
          return Aborted(MissingDepartment(d));
        }
        var ch := DiffDepartment(currentData[d], newData[d]);
        if ch.Some? {
          allChanges := allChanges[d := ch.value];
        }
        assert Step(currentData, p, d) == Progress(allChanges, newData, skipped, None);
      }
      assert depts[..|depts|] == depts;
      outcome := Checked(allChanges, skipped, |allChanges| > 0);
      currentData := newData;
    }
  }

  /** The loop over one more department is one more step. */
  lemma RunSnoc(cur: Snapshot, scraped: Snapshot, ds: seq<DeptId>, i: nat)
    requires WellFormedSnapshot(cur) && WellFormedSnapshot(scraped) && i < |ds|
    ensures Run(cur, scraped, ds[..i + 1]) == Step(cur, Run(cur, scraped, ds[..i]), ds[i])
  {
    assert ds[..i + 1][..i] == ds[..i];
  }

  lemma EmptyMap<K, V>(m: map<K, V>)
    ensures |m| > 0 <==> m != map[]
  {
  }

  /** Once a lookup failed, the remaining departments change nothing. */
  lemma {:induction false} RunFailedStays(cur: Snapshot, scraped: Snapshot, ds: seq<DeptId>, i: nat)
    requires WellFormedSnapshot(cur) && WellFormedSnapshot(scraped)
    requires i <= |ds| && Run(cur, scraped, ds[..i]).failed.Some?
    ensures Run(cur, scraped, ds) == Run(cur, scraped, ds[..i])
    decreases |ds|
  {
    if i == |ds| {
      assert ds[..i] == ds;
    } else {
      var init := ds[..|ds| - 1];
      assert init[..i] == ds[..i];
      RunFailedStays(cur, scraped, init, i);
    }
  }

  /** Where department `d` stands once the loop has run over `ds` without a
      failed lookup: a guarded department keeps its old courses and gets no
      entry; any other department of `ds` keeps its scraped courses and has an
      entry exactly when its diff is non-empty; a department not in `ds` is as
      scraped and has no entry. */
  ghost predicate Settled(cur: Snapshot, scraped: Snapshot, ds: seq<DeptId>, p: Progress, d: DeptId)
    requires WellFormedSnapshot(cur) && WellFormedSnapshot(scraped)
  {
    if d in ds && Guard(Get(cur, d), Get(scraped, d)) then
      d in cur && d in p.newData && p.newData[d] == cur[d] && d !in p.changes && d in p.skipped
    else if d in ds then
      d in cur && d in scraped && d in p.newData && p.newData[d] == scraped[d] && d !in p.skipped
      && (d in p.changes <==> DeptDiff(cur[d], scraped[d]).Some?)
      && (d in p.changes ==> DeptDiff(cur[d], scraped[d]) == Some(p.changes[d]))
    else
      (d in p.newData <==> d in scraped) && (d in scraped ==> p.newData[d] == scraped[d])
      && d !in p.changes && d !in p.skipped
  }

  /** The loop fails exactly on the first department it cannot resolve; when
      it does not fail, every department is settled as `Settled` says. */
  lemma {:induction false} RunSettled(cur: Snapshot, scraped: Snapshot, ds: seq<DeptId>)
    requires WellFormedSnapshot(cur) && WellFormedSnapshot(scraped) && NoDups(ds)
    ensures Run(cur, scraped, ds).failed.None? <==> forall d :: d in ds ==> Resolvable(cur, scraped, d)
    ensures Run(cur, scraped, ds).failed.Some? ==>
              Run(cur, scraped, ds).failed.value in ds
              && !Resolvable(cur, scraped, Run(cur, scraped, ds).failed.value)
    ensures Run(cur, scraped, ds).failed.None? ==>
              forall d :: Settled(cur, scraped, ds, Run(cur, scraped, ds), d)
    decreases |ds|
  {
    if ds != [] {
      var init := ds[..|ds| - 1];
      var x := ds[|ds| - 1];
      assert ds == init + [x];
      NoDupsInit(ds);
      RunSettled(cur, scraped, init);
      var q := Run(cur, scraped, init);
      if q.failed.None? {
        StepSettles(cur, scraped, init, x, q);
      }
    }
  }

  /** One more department settles it and leaves the others where they were. */
  lemma StepSettles(cur: Snapshot, scraped: Snapshot, init: seq<DeptId>, x: DeptId, q: Progress)
    requires WellFormedSnapshot(cur) && WellFormedSnapshot(scraped) && WellFormedSnapshot(q.newData)
    requires x !in init && q.failed.None?
    requires forall d :: Settled(cur, scraped, init, q, d)
    ensures Step(cur, q, x).failed.None? <==> Resolvable(cur, scraped, x)
    ensures Step(cur, q, x).failed.Some? ==> Step(cur, q, x).failed == Some(x)
    ensures Step(cur, q, x).failed.None? ==>
              forall d :: Settled(cur, scraped, init + [x], Step(cur, q, x), d)
  {
    assert Settled(cur, scraped, init, q, x);
    assert Get(q.newData, x) == Get(scraped, x);
    var r := Step(cur, q, x);
    if r.failed.None? {
      forall d ensures Settled(cur, scraped, init + [x], r, d) {
        assert Settled(cur, scraped, init, q, d);
        assert d in init + [x] <==> d in init || d == x;
      }
    }
  }

  /** A check is abandoned by the scrape exactly when it found no course while
      a catalogue was held, and then neither global moves; it is abandoned by
      a lookup only on a department of `DEPTS` that is neither guarded nor in
      both snapshots; an abandoned check never touches `current_data`. */
  lemma CheckAborts(cur: Snapshot, prevNew: Snapshot, scraped: Snapshot, depts: seq<DeptId>)
    requires WellFormedSnapshot(cur) && WellFormedSnapshot(scraped) && NoDups(depts)
    ensures var r := CheckSpec(cur, prevNew, scraped, depts);
            (r.outcome == Aborted(AllDeleted) <==> |cur| > 0 && NoCourses(scraped))
            && (r.outcome == Aborted(AllDeleted) ==> r.newData == prevNew)
            && (r.outcome.Aborted? ==> r.currentData == cur)
            && (r.outcome.Checked? <==>
                  !(|cur| > 0 && NoCourses(scraped)) && forall d :: d in depts ==> Resolvable(cur, scraped, d))
    ensures var r := CheckSpec(cur, prevNew, scraped, depts);
            r.outcome.Aborted? && r.outcome.error.MissingDepartment? ==>
              r.outcome.error.dept in depts && !Resolvable(cur, scraped, r.outcome.error.dept)
  {
    RunSettled(cur, scraped, depts);
  }

  /** The snapshot a completed check accepts as `current_data`: for each
      department the guard fired on, the old courses; for every other
      department, what was scraped. The skipped list is exactly the guarded
      departments of `DEPTS`. */
  lemma CheckAccepted(cur: Snapshot, prevNew: Snapshot, scraped: Snapshot, depts: seq<DeptId>)
    requires WellFormedSnapshot(cur) && WellFormedSnapshot(scraped) && NoDups(depts)
    ensures var r := CheckSpec(cur, prevNew, scraped, depts);
            r.outcome.Checked? ==>
              r.currentData == r.newData
              && (forall d :: d in depts && Guard(Get(cur, d), Get(scraped, d)) ==>
                    d in cur && d in r.currentData && r.currentData[d] == cur[d])
              && (forall d :: !(d in depts && Guard(Get(cur, d), Get(scraped, d))) ==>
                    (d in r.currentData <==> d in scraped)
                    && (d in scraped ==> r.currentData[d] == scraped[d]))
              && (forall d :: d in r.outcome.skipped <==> d in depts && Guard(Get(cur, d), Get(scraped, d)))
  {
    RunSettled(cur, scraped, depts);
    var r := CheckSpec(cur, prevNew, scraped, depts);
    if r.outcome.Checked? {
      var p := Run(cur, scraped, depts);
      assert r == CheckResult(Checked(p.changes, p.skipped, |p.changes| > 0), p.newData, p.newData);
      forall d | d in depts && Guard(Get(cur, d), Get(scraped, d))
        ensures d in cur && d in p.newData && p.newData[d] == cur[d]
      {
        assert Settled(cur, scraped, depts, p, d);
      }
      forall d | !(d in depts && Guard(Get(cur, d), Get(scraped, d)))
        ensures (d in p.newData <==> d in scraped) && (d in scraped ==> p.newData[d] == scraped[d])
      {
        assert Settled(cur, scraped, depts, p, d);
      }
      forall d ensures d in p.skipped <==> d in depts && Guard(Get(cur, d), Get(scraped, d)) {
        assert Settled(cur, scraped, depts, p, d);
      }
    }
  }

  /** `all_changes` of a completed check: a department has an entry exactly
      when it is in `DEPTS`, the guard did not fire, and its diff is
      non-empty; the entry is that diff, sparse; `notify_changes` runs
      exactly when some department has an entry. */
  lemma CheckChanges(cur: Snapshot, prevNew: Snapshot, scraped: Snapshot, depts: seq<DeptId>)
    requires WellFormedSnapshot(cur) && WellFormedSnapshot(scraped) && NoDups(depts)
    ensures var r := CheckSpec(cur, prevNew, scraped, depts);
            r.outcome.Checked? ==>
              (forall d :: d in r.outcome.changes <==>
                 d in depts && !Guard(Get(cur, d), Get(scraped, d))
                 && d in cur && d in scraped && DeptDiff(cur[d], scraped[d]).Some?)
              && (forall d :: d in r.outcome.changes ==>
                    d in cur && d in scraped && DeptDiff(cur[d], scraped[d]) == Some(r.outcome.changes[d])
                    && r.outcome.changes[d].Sparse())
              && (r.outcome.notified <==> r.outcome.changes != map[])
  {
    RunSettled(cur, scraped, depts);
    var r := CheckSpec(cur, prevNew, scraped, depts);
    if r.outcome.Checked? {
      var p := Run(cur, scraped, depts);
      assert r == CheckResult(Checked(p.changes, p.skipped, |p.changes| > 0), p.newData, p.newData);
      forall d ensures d in p.changes <==>
                         d in depts && !Guard(Get(cur, d), Get(scraped, d))
                         && d in cur && d in scraped && DeptDiff(cur[d], scraped[d]).Some?
      {
        assert Settled(cur, scraped, depts, p, d);
      }
      forall d | d in p.changes
        ensures d in cur && d in scraped && DeptDiff(cur[d], scraped[d]) == Some(p.changes[d])
      {
        assert Settled(cur, scraped, depts, p, d);
      }
      EmptyMap(p.changes);
    }
  }

  /** Checking a catalogue against an identical scrape that holds every
      department of `DEPTS` (and is not refused as empty) reports no change,
      skips nothing, notifies nobody and keeps the catalogue. */
  lemma SelfCheckQuiet(a: Snapshot, prevNew: Snapshot, depts: seq<DeptId>)
    requires WellFormedSnapshot(a) && NoDups(depts)
    requires forall d :: d in depts ==> d in a
    requires !(|a| > 0 && NoCourses(a))
    ensures CheckSpec(a, prevNew, a, depts) == CheckResult(Checked(map[], [], false), a, a)
  {
    var r := CheckSpec(a, prevNew, a, depts);
    QuietChecked(a, prevNew, depts);
    QuietNoChanges(a, prevNew, depts);
    QuietNoSkips(a, prevNew, depts);
    QuietKeeps(a, prevNew, depts);
    assert r.outcome == Checked(map[], [], false);
  }

  lemma QuietChecked(a: Snapshot, prevNew: Snapshot, depts: seq<DeptId>)
    requires WellFormedSnapshot(a) && NoDups(depts)
    requires forall d :: d in depts ==> d in a
    requires !(|a| > 0 && NoCourses(a))
    ensures CheckSpec(a, prevNew, a, depts).outcome.Checked?
  {
    CheckAborts(a, prevNew, a, depts);
    forall d | d in depts
      ensures Resolvable(a, a, d)
    {
    }
  }

  lemma QuietNoChanges(a: Snapshot, prevNew: Snapshot, depts: seq<DeptId>)
    requires WellFormedSnapshot(a) && NoDups(depts)
    ensures var r := CheckSpec(a, prevNew, a, depts);
            r.outcome.Checked? ==> r.outcome.changes == map[] && !r.outcome.notified
  {
    CheckChanges(a, prevNew, a, depts);
    var r := CheckSpec(a, prevNew, a, depts);
    if r.outcome.Checked? {
      forall d ensures d !in r.outcome.changes {
        if d in a {
          DeptDiffNoneIff(a[d], a[d]);
        }
      }
      assert r.outcome.changes == map[];
    }
  }

  lemma QuietNoSkips(a: Snapshot, prevNew: Snapshot, depts: seq<DeptId>)
    requires WellFormedSnapshot(a) && NoDups(depts)
    ensures var r := CheckSpec(a, prevNew, a, depts);
            r.outcome.Checked? ==> r.outcome.skipped == []
  {
    CheckAccepted(a, prevNew, a, depts);
    var r := CheckSpec(a, prevNew, a, depts);
    if r.outcome.Checked? {
      forall d ensures d !in r.outcome.skipped {
        assert !Guard(Get(a, d), Get(a, d));
      }
      SeqEmpty(r.outcome.skipped);
    }
  }

  lemma QuietKeeps(a: Snapshot, prevNew: Snapshot, depts: seq<DeptId>)
    requires WellFormedSnapshot(a) && NoDups(depts)
    ensures var r := CheckSpec(a, prevNew, a, depts);
            r.outcome.Checked? ==> r.currentData == a && r.newData == a
  {
    CheckAccepted(a, prevNew, a, depts);
    var r := CheckSpec(a, prevNew, a, depts);
    if r.outcome.Checked? {
      forall d ensures (d in r.currentData <==> d in a) && (d in a ==> r.currentData[d] == a[d]) {
        assert !Guard(Get(a, d), Get(a, d));
      }
      assert r.currentData == a;
    }
  }
}
